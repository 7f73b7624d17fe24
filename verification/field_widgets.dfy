/** The widgets of the unit edit screen: one per field definition of the unit's
    list, chosen by the definition's type string. Text boxes, toggles, keybind
    buttons and cycle buttons hold the field's value while the user edits it;
    `getValueFromWidget` reads it back and `isValidValue` checks required
    fields. Toggle states live with their button; cycle indices live in the
    factory, keyed by field name. */
module FieldWidgetFactory {
  import opened Wrappers
  import opened JavaText
  import opened ConfigValue
  import opened SpecialUnits
  import opened AbstractConfigUnit

  /** A field of `config_gui.json`; absent JSON members are `None`/`Null`. */
  datatype FieldDefinition = FieldDefinition(
    name: string,
    fieldType: string,
    options: Option<seq<string>>,
    optionKeys: Option<seq<string>>,
    defaultValue: Value,
    maxLength: Option<int>,
    required: Option<bool>,
    dropdown: Option<string>)

  /** The widget built for a field. A keybind button holds its bound key's name. */
  datatype Widget =
    | EditBox(text: string)
    | ToggleButton(on: bool)
    | KeybindButton(boundKey: string)
    | CycleButton
    | UnknownTypeButton

  datatype Factory = Factory(cycleIndices: map<string, nat>)

  const EMPTY_FACTORY: Factory := Factory(map[])

  /** `Object.toString()` of a unit field's value. */
  function ValueToString(v: FieldValue): string {
    match v
    case FBool(b) => if b then "true" else "false"
    case FStr(s) => s
    case FModifier(m) => ModifierName(m)
  }

  /** `List.indexOf`. */
  function IndexOfItem(xs: seq<string>, x: string): (r: int)
    ensures -1 <= r < |xs|
    ensures r == -1 <==> x !in xs
    ensures r >= 0 ==> xs[r] == x && forall j :: 0 <= j < r ==> xs[j] != x
  {
    if xs == [] then -1
    else if xs[0] == x then 0
    else
      var k := IndexOfItem(xs[1..], x);
      if k == -1 then -1 else k + 1
  }

  /** The cycle's starting position: the initial value's position among the
      options, or 0 when the value is absent or not an option. */
  function InitialCycleIndex(def: FieldDefinition, initial: Option<FieldValue>): (i: nat)
    ensures def.options.Some? && initial.Some? && ValueToString(initial.value) in def.options.value ==>
      i < |def.options.value| && def.options.value[i] == ValueToString(initial.value)
    ensures !(def.options.Some? && initial.Some? && ValueToString(initial.value) in def.options.value) ==> i == 0
  {
    if initial.Some? && def.options.Some? then
      var k := IndexOfItem(def.options.value, ValueToString(initial.value));
      if k == -1 then 0 else k
    else 0
  }

  /** A toggle starts at the unit's Boolean value, else the field's Boolean
      default, else off. */
  function InitialToggle(def: FieldDefinition, initial: Option<FieldValue>): (on: bool)
    ensures initial.Some? && initial.value.FBool? ==> on == initial.value.b
    ensures !(initial.Some? && initial.value.FBool?) ==> (on <==> def.defaultValue == Bool(true))
  {
    if initial.Some? && initial.value.FBool? then initial.value.b
    else if def.defaultValue.Bool? then def.defaultValue.b
    else false
  }

  /** Minecraft's `EditBox` accepts at most 32 characters until `setMaxLength`
      says otherwise. */
  const EDIT_BOX_DEFAULT_MAX_LENGTH: nat := 32

  /** The limit a text field's box ends up with. */
  function EditBoxLimit(def: FieldDefinition): int {
    if def.maxLength.Some? then def.maxLength.value else EDIT_BOX_DEFAULT_MAX_LENGTH
  }

  /** `EditBox.setValue`: a string longer than the box's limit is cut to it. */
  function FitToBox(s: string, limit: nat): (r: string)
    ensures |r| <= limit && |r| <= |s|
    ensures r <= s
    ensures |s| <= limit ==> r == s
  {
    if |s| > limit then s[..limit] else s
  }

  /** `createWidget` (and `createKeybindWidget`), for a field whose current
      value in the unit being edited is `initial`. A text field with a negative
      `maxLength` throws: `setMaxLength` cuts the still-empty value with
      `substring(0, maxLength)`. */
  function CreateWidget(f: Factory, def: FieldDefinition, initial: Option<FieldValue>): (r: Result<(Factory, Widget)>)
    ensures r.Failure? <==> def.fieldType == "text" && EditBoxLimit(def) < 0
    ensures r.Success? && def.fieldType != "cycle" ==> r.value.0 == f
    ensures def.fieldType == "cycle" ==>
      r.Success? && r.value.0.cycleIndices == f.cycleIndices[def.name := InitialCycleIndex(def, initial)] && r.value.1 == CycleButton
    ensures r.Success? && def.fieldType == "text" ==>
      var limit := EditBoxLimit(def);
      var text := if initial.Some? && initial.value.FStr? then initial.value.s else "";
      r.value.1.EditBox? && |r.value.1.text| == (if |text| <= limit then |text| else limit) && r.value.1.text <= text
    ensures def.fieldType == "toggle" ==> r == Success((f, ToggleButton(InitialToggle(def, initial))))
    ensures def.fieldType == "keybind" ==>
      r == Success((f, KeybindButton(if initial.Some? && initial.value.FStr? then initial.value.s else UNKNOWN_KEY_NAME)))
    ensures def.fieldType !in {"text", "toggle", "keybind", "cycle"} ==> r == Success((f, UnknownTypeButton))
  {
    match def.fieldType
    case "text" =>
      var limit := EditBoxLimit(def);
      if limit < 0 then Failure("StringIndexOutOfBoundsException")
      else Success((f, EditBox(FitToBox(if initial.Some? && initial.value.FStr? then initial.value.s else "", limit))))
    case "toggle" => Success((f, ToggleButton(InitialToggle(def, initial))))
    case "keybind" => Success((f, KeybindButton(if initial.Some? && initial.value.FStr? then initial.value.s else UNKNOWN_KEY_NAME)))
    case "cycle" => Success((Factory(f.cycleIndices[def.name := InitialCycleIndex(def, initial)]), CycleButton))
    case _ => Success((f, UnknownTypeButton))
  }

  function PressToggle(w: Widget): (r: Widget)
    requires w.ToggleButton?
    ensures r.ToggleButton? && r.on == !w.on
  {
    ToggleButton(!w.on)
  }

  /** A cycle button press. A field without options, or with an empty option
      list, throws (null dereference or division by zero). */
  function PressCycle(f: Factory, def: FieldDefinition): (r: Result<Factory>)
    ensures r.Success? <==> def.name in f.cycleIndices && def.options.Some? && |def.options.value| > 0
    ensures r.Success? ==> def.name in r.value.cycleIndices
    ensures r.Success? ==> r.value.cycleIndices == f.cycleIndices[def.name := r.value.cycleIndices[def.name]]
    ensures r.Success? ==> r.value.cycleIndices[def.name] < |def.options.value|
    ensures r.Success? && f.cycleIndices[def.name] + 1 < |def.options.value| ==>
      r.value.cycleIndices[def.name] == f.cycleIndices[def.name] + 1
    ensures r.Success? && f.cycleIndices[def.name] + 1 == |def.options.value| ==>
      r.value.cycleIndices[def.name] == 0
  {
    if def.name !in f.cycleIndices then Failure("NullPointerException")
    else if def.options.None? then Failure("NullPointerException")
    else if |def.options.value| == 0 then Failure("ArithmeticException")
    else
      var next := JavaRem(f.cycleIndices[def.name] + 1, |def.options.value|);
      Success(Factory(f.cycleIndices[def.name := next]))
  }

  /** `k` presses of the same cycle button, stopping at the first failure. */
  function PressCycleTimes(f: Factory, def: FieldDefinition, k: nat): (r: Result<Factory>)
    decreases k
  {
    if k == 0 then Success(f)
    else match PressCycle(f, def)
      case Failure(e) => Failure(e)
      case Success(g) => PressCycleTimes(g, def, k - 1)
  }

  lemma {:induction false} PressCycleTimesAdd(f: Factory, def: FieldDefinition, a: nat, b: nat)
    requires PressCycleTimes(f, def, a).Success?
    ensures PressCycleTimes(f, def, a + b) == PressCycleTimes(PressCycleTimes(f, def, a).value, def, b)
    decreases a
  {
    if a > 0 {
      var g := PressCycle(f, def).value;
      PressCycleTimesAdd(g, def, a - 1, b);
      assert a + b - 1 == (a - 1) + b;
    }
  }

  /** Presses that stay below the last option move the index up by one each. */
  lemma {:induction false} PressCycleTimesCount(f: Factory, def: FieldDefinition, k: nat)
    requires def.name in f.cycleIndices && def.options.Some?
    requires f.cycleIndices[def.name] + k < |def.options.value|
    ensures PressCycleTimes(f, def, k) == Success(Factory(f.cycleIndices[def.name := f.cycleIndices[def.name] + k]))
    decreases k
  {
    if k == 0 {
      assert f.cycleIndices[def.name := f.cycleIndices[def.name]] == f.cycleIndices;
    } else {
      var g := PressCycle(f, def).value;
      PressCycleTimesCount(g, def, k - 1);
      assert g.cycleIndices[def.name := g.cycleIndices[def.name] + (k - 1)]
          == f.cycleIndices[def.name := f.cycleIndices[def.name] + k];
    }
  }

  /** One press on the last option wraps to the first. */
  lemma PressCycleWraps(g: Factory, def: FieldDefinition)
    requires def.name in g.cycleIndices && def.options.Some?
    requires g.cycleIndices[def.name] + 1 == |def.options.value|
    ensures PressCycleTimes(g, def, 1) == Success(Factory(g.cycleIndices[def.name := 0]))
  {
    var z := PressCycle(g, def).value;
    assert PressCycleTimes(z, def, 0) == Success(z);
  }

  /** From any option, presses up to and past the last option land on the first. */
  lemma PressCycleToFirst(f: Factory, def: FieldDefinition)
    requires def.name in f.cycleIndices && def.options.Some?
    requires f.cycleIndices[def.name] < |def.options.value|
    ensures PressCycleTimes(f, def, |def.options.value| - f.cycleIndices[def.name]) ==
      Success(Factory(f.cycleIndices[def.name := 0]))
  {
    var n := |def.options.value|;
    var i := f.cycleIndices[def.name];
    var up: nat := n - 1 - i;
    var mid := Factory(f.cycleIndices[def.name := i + up]);
    PressCycleTimesCount(f, def, up);
    PressCycleWraps(mid, def);
    var end := Factory(mid.cycleIndices[def.name := 0]);
    assert PressCycleTimes(f, def, up) == Success(mid);
    assert PressCycleTimes(mid, def, 1) == Success(end);
    PressCyclesThenOne(f, def, up, mid, end);
    UpdateTwice(f.cycleIndices, def.name, i + up, 0);
    assert up + 1 == n - i;
  }

  /** The second update of a key hides the first. */
  lemma UpdateTwice(m: map<string, int>, k: string, a: int, b: int)
    ensures m[k := a][k := b] == m[k := b]
  {
  }

  /** Storing the value a key already has changes nothing. */
  lemma UpdateSame(m: map<string, int>, k: string)
    requires k in m
    ensures m[k := m[k]] == m
  {
  }

  lemma PressCyclesThenOne(f: Factory, def: FieldDefinition, k: nat, mid: Factory, end: Factory)
    ensures PressCycleTimes(f, def, k) == Success(mid) && PressCycleTimes(mid, def, 1) == Success(end) ==>
      PressCycleTimes(f, def, k + 1) == Success(end)
  {
    if PressCycleTimes(f, def, k) == Success(mid) {
      PressCycleTimesAdd(f, def, k, 1);
    }
  }

  /** From the first option, as many presses as the starting index lead
      back to it. */
  lemma CycleFromFirst(f: Factory, def: FieldDefinition)
    requires def.name in f.cycleIndices && def.options.Some?
    requires f.cycleIndices[def.name] < |def.options.value|
    ensures PressCycleTimes(Factory(f.cycleIndices[def.name := 0]), def, f.cycleIndices[def.name]) == Success(f)
  {
    var i := f.cycleIndices[def.name];
    var zero := Factory(f.cycleIndices[def.name := 0]);
    PressCycleTimesCount(zero, def, i);
    assert zero.cycleIndices[def.name] + i == i;
    UpdateTwice(f.cycleIndices, def.name, 0, i);
    UpdateSame(f.cycleIndices, def.name);
  }

  /** Pressing a cycle button once per option brings it back to where it started. */
  lemma CycleFullTurn(f: Factory, def: FieldDefinition)
    requires def.name in f.cycleIndices && def.options.Some?
    requires f.cycleIndices[def.name] < |def.options.value|
    ensures PressCycleTimes(f, def, |def.options.value|) == Success(f)
  {
    var n := |def.options.value|;
    var i := f.cycleIndices[def.name];
    var up: nat := n - i;
    assert up + i == n;
    PressCycleToFirst(f, def);
    PressCycleTimesAdd(f, def, up, i);
    CycleFromFirst(f, def);
  }

  /** `getCycleDisplayText`: the translated option key, else the raw option,
      else "Unknown". `trans` is the translation table. */
  function CycleDisplayText(def: FieldDefinition, index: int, trans: string -> string): (t: string)
    requires index >= 0
    ensures def.optionKeys.Some? && index < |def.optionKeys.value| ==> t == trans(def.optionKeys.value[index])
    ensures !(def.optionKeys.Some? && index < |def.optionKeys.value|) && def.options.Some? && index < |def.options.value| ==>
      t == def.options.value[index]
    ensures !(def.optionKeys.Some? && index < |def.optionKeys.value|) && !(def.options.Some? && index < |def.options.value|) ==>
      t == "Unknown"
  {
    if def.optionKeys.Some? && index < |def.optionKeys.value| then trans(def.optionKeys.value[index])
    else if def.options.Some? && index < |def.options.value| then def.options.value[index]
    else "Unknown"
  }

  /** `getValueFromWidget`: what the edit screen saves for a field, or `None`
      for Java's null. */
  function GetValueFromWidget(f: Factory, def: FieldDefinition, w: Widget): (v: Option<FieldValue>)
    ensures def.fieldType == "text" ==> v == (if w.EditBox? then Some(FStr(Trim(w.text))) else None)
    ensures def.fieldType == "toggle" ==> v == (if w.ToggleButton? then Some(FBool(w.on)) else None)
    ensures def.fieldType == "keybind" ==> v == (if w.KeybindButton? then Some(FStr(w.boundKey)) else None)
    ensures def.fieldType == "cycle" ==>
      (v.Some? <==> def.name in f.cycleIndices && def.options.Some? && f.cycleIndices[def.name] < |def.options.value|)
    ensures def.fieldType == "cycle" && v.Some? ==> v.value == FStr(def.options.value[f.cycleIndices[def.name]])
    ensures def.fieldType !in {"text", "toggle", "keybind", "cycle"} ==> v == None
    ensures v.Some? ==> v.value.FStr? || v.value.FBool?
  {
    match def.fieldType
    case "text" => if w.EditBox? then Some(FStr(Trim(w.text))) else None
    case "toggle" => if w.ToggleButton? then Some(FBool(w.on)) else None
    case "keybind" => if w.KeybindButton? then Some(FStr(w.boundKey)) else None
    case "cycle" =>
      if def.name in f.cycleIndices && def.options.Some? && f.cycleIndices[def.name] < |def.options.value|
      then Some(FStr(def.options.value[f.cycleIndices[def.name]]))
      else None
    case _ => None
  }

  /** `isValidValue`: only a required field can be invalid, and then exactly
      when its value is null or a blank string. */
  function IsValidValue(def: FieldDefinition, v: Option<FieldValue>): (ok: bool)
    ensures def.required != Some(true) ==> ok
    ensures def.required == Some(true) ==> (ok <==> v.Some? && !(v.value.FStr? && Trim(v.value.s) == []))
  {
    if def.required == Some(true) then
      if v.None? then false
      else if v.value.FStr? && Trim(v.value.s) == [] then false
      else true
    else true
  }

  /** An untouched widget gives back the value it was created with: a cycle
      button its option, a toggle its Boolean, a text box its text up to
      trimming, as long as the text fits the box. */
  lemma CreatedWidgetReadsBack(f: Factory, def: FieldDefinition, initial: FieldValue)
    requires def.fieldType in {"text", "toggle", "cycle"}
    requires def.fieldType == "cycle" ==> def.options.Some? && ValueToString(initial) in def.options.value
    requires def.fieldType == "text" ==> initial.FStr? && |initial.s| <= EditBoxLimit(def)
    requires def.fieldType == "toggle" ==> initial.FBool?
    ensures var r := CreateWidget(f, def, Some(initial));
      r.Success? &&
      GetValueFromWidget(r.value.0, def, r.value.1) ==
        if def.fieldType == "text" then Some(FStr(Trim(initial.s)))
        else if def.fieldType == "toggle" then Some(initial)
        else Some(FStr(ValueToString(initial)))
  {
  }

  /** A text longer than the box is cut before it is read back: a field without
      `maxLength` keeps only the first 32 characters of its value. */
  lemma LongTextIsCut(f: Factory, def: FieldDefinition, text: string)
    requires def.fieldType == "text" && def.maxLength.None?
    requires |text| > EDIT_BOX_DEFAULT_MAX_LENGTH
    ensures var r := CreateWidget(f, def, Some(FStr(text)));
      r.Success? && r.value.1 == EditBox(text[..32]) &&
      GetValueFromWidget(r.value.0, def, r.value.1) == Some(FStr(Trim(text[..32])))
  {
  }

  /** A text field read back is already trimmed, so reading it back again after
      writing it into a fresh box gives the same value. */
  lemma TextReadBackStable(f: Factory, def: FieldDefinition, text: string)
    requires def.fieldType == "text"
    ensures var v := GetValueFromWidget(f, def, EditBox(text));
      GetValueFromWidget(f, def, EditBox(v.value.s)) == v
  {
    TrimIdempotent(text);
  }
}
