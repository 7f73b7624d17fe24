/** The list editor behind each config list: it loads the stored JSON list
    into units, tracks the selected row, and after every change writes the whole
    list back through `ConfigProvider.set`. Each operation returns the new
    manager together with the list value written, if any. */
module ListManager {
  import opened Wrappers
  import opened ConfigValue
  import opened SpecialUnits
  import opened AbstractConfigUnit

  datatype Manager = Manager(configKey: string, unitClass: UnitClass, items: seq<Unit>, selected: int)

  datatype Outcome = Outcome(manager: Manager, written: Option<Value>)

  /** What `saveItems` passes to `ConfigProvider.set`: each item's `toMap`. */
  function Serialized(items: seq<Unit>): (v: Value)
    ensures v.List? && |v.items| == |items|
    ensures forall i :: 0 <= i < |items| ==> v.items[i] == Obj(ToMap(items[i]))
  {
    List(seq(|items|, i requires 0 <= i < |items| => Obj(ToMap(items[i]))))
  }

  /** The constructor's `loadItems`: a stored list that fails to decode, or a
      value that is not a list, leaves the editor empty. */
  function Load(configKey: string, c: UnitClass, stored: Value): (m: Manager)
    ensures m.configKey == configKey && m.unitClass == c && m.selected == -1
    ensures !stored.List? ==> m.items == []
    ensures stored.List? && FromList(FromJson(stored.items), c).Success? ==>
      m.items == FromList(FromJson(stored.items), c).value
    ensures stored.List? && FromList(FromJson(stored.items), c).Failure? ==> m.items == []
  {
    var items :=
      if stored.List? && FromList(FromJson(stored.items), c).Success?
      then FromList(FromJson(stored.items), c).value
      else [];
    Manager(configKey, c, items, -1)
  }

  /** Whatever the editor saves, it loads back unchanged. */
  lemma {:induction false} LoadSaved(configKey: string, c: UnitClass, items: seq<Unit>)
    requires forall i :: 0 <= i < |items| ==> ClassOf(items[i]) == c
    ensures Load(configKey, c, Serialized(items)).items == items
  {
    var elems := FromJson(Serialized(items).items);
    forall i | 0 <= i < |items|
      ensures Of(elems[i], c) == Success(items[i])
    {
      OfToMap(items[i]);
    }
    var r := FromList(elems, c);
    assert r.Success?;
    assert r.value == items;
  }

  /** `saveItems`: the whole list is written, and what is written loads
      back as the same list when every item is of the manager's class. */
  function Saved(m: Manager): (o: Outcome)
    ensures o.manager == m && o.written.Some?
    ensures (forall i :: 0 <= i < |m.items| ==> ClassOf(m.items[i]) == m.unitClass) ==>
      Load(m.configKey, m.unitClass, o.written.value).items == m.items
  {
    if forall i :: 0 <= i < |m.items| ==> ClassOf(m.items[i]) == m.unitClass then
      LoadSaved(m.configKey, m.unitClass, m.items);
      Outcome(m, Some(Serialized(m.items)))
    else Outcome(m, Some(Serialized(m.items)))
  }

  function AddItem(m: Manager, item: Unit): (o: Outcome)
    ensures o.manager.items == m.items + [item]
    ensures o.manager.selected == m.selected
    ensures o.written == Some(Serialized(o.manager.items))
  {
    Saved(m.(items := m.items + [item]))
  }

  /** `updateItem`: an index outside the list changes and writes nothing. */
  function UpdateItem(m: Manager, index: int, item: Unit): (o: Outcome)
    ensures 0 <= index < |m.items| ==>
      o.manager.items == m.items[index := item] && o.written == Some(Serialized(o.manager.items))
    ensures !(0 <= index < |m.items|) ==> o == Outcome(m, None)
  {
    if 0 <= index < |m.items| then Saved(m.(items := m.items[index := item])) else Outcome(m, None)
  }

  /** `removeItem`: the selection follows the item it pointed at, and is cleared
      when that item is the one removed. */
  function RemoveItem(m: Manager, index: int): (o: Outcome)
    ensures 0 <= index < |m.items| ==>
      && o.manager.items == m.items[..index] + m.items[index + 1..]
      && o.written == Some(Serialized(o.manager.items))
      && (m.selected == index ==> o.manager.selected == -1)
      && (m.selected != index && 0 <= m.selected < |m.items| ==>
            0 <= o.manager.selected < |o.manager.items| && o.manager.items[o.manager.selected] == m.items[m.selected])
      && (m.selected < index ==> o.manager.selected == m.selected)
    ensures !(0 <= index < |m.items|) ==> o == Outcome(m, None)
  {
    if 0 <= index < |m.items| then
      var sel := if m.selected == index then -1 else if m.selected > index then m.selected - 1 else m.selected;
      Saved(m.(items := m.items[..index] + m.items[index + 1..], selected := sel))
    else Outcome(m, None)
  }

  /** The delete button: removes the selected row and clears the selection. */
  function DeleteSelected(m: Manager): (o: Outcome)
    ensures 0 <= m.selected < |m.items| ==>
      && o.manager.items == m.items[..m.selected] + m.items[m.selected + 1..]
      && o.manager.selected == -1
      && o.written.Some?
    ensures !(0 <= m.selected < |m.items|) ==> o == Outcome(m, None)
  {
    if 0 <= m.selected < |m.items| then
      var r := RemoveItem(m, m.selected);
      Outcome(r.manager.(selected := -1), r.written)
    else Outcome(m, None)
  }

  /** `saveItem`, called when the edit screen saves: replaces the edited row,
      or appends a new one and clears the selection. */
  function SaveItem(m: Manager, item: Unit, index: int): (o: Outcome)
    ensures 0 <= index < |m.items| ==> o.manager.items == m.items[index := item] && o.manager.selected == m.selected
    ensures !(0 <= index < |m.items|) ==> o.manager.items == m.items + [item] && o.manager.selected == -1
    ensures o.written == Some(Serialized(o.manager.items))
  {
    if 0 <= index < |m.items| then Saved(m.(items := m.items[index := item]))
    else Saved(m.(items := m.items + [item], selected := -1))
  }

  /** The ON/OFF state of a row: the unit's last declared field, `enabled`. */
  function Enabled(u: Unit): (b: bool)
    ensures DeclaredFields(ClassOf(u))[|DeclaredFields(ClassOf(u))| - 1].name == "enabled"
    ensures FieldsOf(u)[|FieldsOf(u)| - 1] == FBool(b)
  {
    match u
    case Macro(x) => x.enabled
    case Alias(x) => x.enabled
    case Notification(x) => x.enabled
    case Whitelist(x) => x.enabled
  }

  function WithEnabled(u: Unit, b: bool): (r: Unit)
    ensures Enabled(r) == b && ClassOf(r) == ClassOf(u)
    ensures r.Macro? ==> r.macro == u.macro.(enabled := b)
  {
    match u
    case Macro(x) => Macro(x.(enabled := b))
    case Alias(x) => Alias(x.(enabled := b))
    case Notification(x) => Notification(x.(enabled := b))
    case Whitelist(x) => Whitelist(x.(enabled := b))
  }

  /** Two enabled macros fire on the same key combination. */
  predicate Conflicts(a: Unit, b: Unit) {
    a.Macro? && b.Macro? && a.macro.enabled && b.macro.enabled
    && a.macro.key == b.macro.key && a.macro.modifier == b.macro.modifier
  }

  /** Disables every other enabled macro bound like `macro`. */
  function DisableConflicts(items: seq<Unit>, index: int, macro: MacroUnit): (r: seq<Unit>)
    ensures |r| == |items|
    ensures forall i :: 0 <= i < |items| && i != index ==>
      r[i] == (if Conflicts(items[i], Macro(macro)) then WithEnabled(items[i], false) else items[i])
  {
    seq(|items|, i requires 0 <= i < |items| =>
      if i != index && Conflicts(items[i], Macro(macro)) then WithEnabled(items[i], false) else items[i])
  }

  /** The ON/OFF button of row `index`: flips the row's `enabled`; turning a macro
      on turns off every other enabled macro on the same key and modifier. */
  function Toggle(m: Manager, index: int): (o: Outcome)
    ensures !(0 <= index < |m.items|) ==> o == Outcome(m, None)
    ensures 0 <= index < |m.items| ==>
      && |o.manager.items| == |m.items|
      && o.manager.items[index] == WithEnabled(m.items[index], !Enabled(m.items[index]))
      && o.written == Some(Serialized(o.manager.items))
      && o.manager.selected == m.selected
  {
    if 0 <= index < |m.items| then
      var item := WithEnabled(m.items[index], !Enabled(m.items[index]));
      var items := m.items[index := item];
      var items' := if Enabled(item) && item.Macro? then DisableConflicts(items, index, item.macro) else items;
      Saved(m.(items := items'))
    else Outcome(m, None)
  }

  /** After a toggle, the toggled macro, if on, shares its key combination with no
      other enabled macro. */
  lemma ToggleLeavesNoConflict(m: Manager, index: int)
    requires 0 <= index < |m.items|
    ensures forall j :: 0 <= j < |m.items| && j != index ==>
      !Conflicts(Toggle(m, index).manager.items[j], Toggle(m, index).manager.items[index])
  {
  }

  /** Toggling anything but a macro, or switching a macro off, touches no other row. */
  lemma ToggleOffTouchesOneRow(m: Manager, index: int)
    requires 0 <= index < |m.items|
    requires !m.items[index].Macro? || Enabled(m.items[index])
    ensures forall j :: 0 <= j < |m.items| && j != index ==> Toggle(m, index).manager.items[j] == m.items[j]
  {
  }

  /** Toggling only ever switches other rows off, and switches off exactly
      the enabled macros bound to the same key and modifier as a macro that
      is being switched on. */
  lemma ToggleOnlyDisablesOthers(m: Manager, index: int, j: int)
    requires 0 <= index < |m.items| && 0 <= j < |m.items| && j != index
    ensures Toggle(m, index).manager.items[j] == m.items[j] || Toggle(m, index).manager.items[j] == WithEnabled(m.items[j], false)
    ensures Toggle(m, index).manager.items[j] != m.items[j] <==>
      && m.items[index].Macro? && !Enabled(m.items[index])
      && m.items[j].Macro? && Enabled(m.items[j])
      && m.items[j].macro.key == m.items[index].macro.key
      && m.items[j].macro.modifier == m.items[index].macro.modifier
  {
  }
}
