/** The reflective codec every list editor uses: a unit's declared fields, in
    declaration order, are read from a JSON object (`of`) and written back to
    one (`toMap`). Reflection is modelled by a declared field list per unit
    class together with a view of a unit as its field values. */
module AbstractConfigUnit {
  import opened Wrappers
  import opened ConfigValue
  import opened SpecialUnits

  datatype UnitClass = MacroClass | AliasClass | NotificationClass | WhitelistClass

  function ClassOf(u: Unit): UnitClass {
    match u
    case Macro(_) => MacroClass
    case Alias(_) => AliasClass
    case Notification(_) => NotificationClass
    case Whitelist(_) => WhitelistClass
  }

  /** The Java types of the declared fields: `boolean`, `String`, and the one enum. */
  datatype FieldKind = BoolKind | StringKind | ModifierKind

  datatype FieldDecl = FieldDecl(name: string, kind: FieldKind)

  datatype FieldValue = FBool(b: bool) | FStr(s: string) | FModifier(m: KeyModifier)

  predicate HasKind(v: FieldValue, k: FieldKind) {
    match k
    case BoolKind => v.FBool?
    case StringKind => v.FStr?
    case ModifierKind => v.FModifier?
  }

  /** `getDeclaredFields()`, in declaration order. */
  function DeclaredFields(c: UnitClass): seq<FieldDecl> {
    match c
    case MacroClass => [FieldDecl("key", StringKind), FieldDecl("modifier", ModifierKind),
                        FieldDecl("command", StringKind), FieldDecl("enabled", BoolKind)]
    case AliasClass => [FieldDecl("alias", StringKind), FieldDecl("replacement", StringKind),
                        FieldDecl("enabled", BoolKind)]
    case NotificationClass => [FieldDecl("pattern", StringKind), FieldDecl("regex", BoolKind),
                               FieldDecl("sound", StringKind), FieldDecl("soundEnabled", BoolKind),
                               FieldDecl("title", StringKind), FieldDecl("titleEnabled", BoolKind),
                               FieldDecl("command", StringKind), FieldDecl("commandEnabled", BoolKind),
                               FieldDecl("enabled", BoolKind)]
    case WhitelistClass => [FieldDecl("domain", StringKind), FieldDecl("resolveEmbed", BoolKind),
                            FieldDecl("enabled", BoolKind)]
  }

  /** Field values that fit the class's declared field types. */
  predicate FitsClass(c: UnitClass, vs: seq<FieldValue>) {
    var decls := DeclaredFields(c);
    |vs| == |decls| && forall i :: 0 <= i < |vs| ==> HasKind(vs[i], decls[i].kind)
  }

  /** Reads every declared field of a unit (`field.get`). */
  function FieldsOf(u: Unit): (vs: seq<FieldValue>)
    ensures FitsClass(ClassOf(u), vs)
  {
    match u
    case Macro(m) => [FStr(m.key), FModifier(m.modifier), FStr(m.command), FBool(m.enabled)]
    case Alias(a) => [FStr(a.alias), FStr(a.replacement), FBool(a.enabled)]
    case Notification(n) => [FStr(n.pattern), FBool(n.regex), FStr(n.sound), FBool(n.soundEnabled),
                             FStr(n.title), FBool(n.titleEnabled), FStr(n.command),
                             FBool(n.commandEnabled), FBool(n.enabled)]
    case Whitelist(w) => [FStr(w.domain), FBool(w.resolveEmbed), FBool(w.enabled)]
  }

  /** The unit of class `c` whose fields hold `vs` (a run of `field.set` calls). */
  function Build(c: UnitClass, vs: seq<FieldValue>): (u: Unit)
    requires FitsClass(c, vs)
    ensures ClassOf(u) == c && FieldsOf(u) == vs
  {
    match c
    case MacroClass => Macro(MacroUnit(vs[0].s, vs[1].m, vs[2].s, vs[3].b))
    case AliasClass => Alias(AliasUnit(vs[0].s, vs[1].s, vs[2].b))
    case NotificationClass =>
      Notification(NotificationUnit(vs[0].s, vs[1].b, vs[2].s, vs[3].b, vs[4].s, vs[5].b, vs[6].s, vs[7].b, vs[8].b))
    case WhitelistClass => Whitelist(WhitelistUnit(vs[0].s, vs[1].b, vs[2].b))
  }

  /** A unit is nothing but its class and its field values. */
  lemma BuildFieldsOf(u: Unit)
    ensures Build(ClassOf(u), FieldsOf(u)) == u
  {
  }

  /** `equals`: same class and every declared field equal. */
  function Equals(a: Unit, b: Unit): (r: bool)
    ensures r <==> a == b
  {
    BuildFieldsOf(a);
    BuildFieldsOf(b);
    ClassOf(a) == ClassOf(b) && FieldsOf(a) == FieldsOf(b)
  }

  /** What `clazz.getDeclaredConstructor().newInstance()` yields. */
  function NewInstance(c: UnitClass): (u: Unit)
    ensures ClassOf(u) == c
  {
    match c
    case MacroClass => Macro(DEFAULT_MACRO)
    case AliasClass => Alias(DEFAULT_ALIAS)
    case NotificationClass => Notification(DEFAULT_NOTIFICATION)
    case WhitelistClass => Whitelist(DEFAULT_WHITELIST)
  }

  /** `getDefaultValue`: the value used for a field missing from the map. */
  function MissingValue(k: FieldKind): Value {
    match k
    case BoolKind => Bool(false)
    case StringKind => Str("")
    case ModifierKind => Null
  }

  /** One step of `of`'s field loop: the map's value (or the missing-field value)
      is stored if non-null; an enum takes `valueOf` of a string; a value of the
      wrong type makes `field.set` throw. */
  function DecodeField(m: map<string, Value>, d: FieldDecl, current: FieldValue): (r: Result<FieldValue>)
    requires HasKind(current, d.kind)
    ensures r.Success? ==> HasKind(r.value, d.kind)
  {
    var v := if d.name in m then m[d.name] else MissingValue(d.kind);
    if v == Null then Success(current)
    else match d.kind
      case BoolKind => if v.Bool? then Success(FBool(v.b)) else Failure("IllegalArgumentException")
      case StringKind => if v.Str? then Success(FStr(v.s)) else Failure("IllegalArgumentException")
      case ModifierKind =>
        if v.Str? && ModifierValueOf(v.s).Some? then Success(FModifier(ModifierValueOf(v.s).value))
        else Failure("IllegalArgumentException")
  }

  function DecodeFields(m: map<string, Value>, decls: seq<FieldDecl>, current: seq<FieldValue>): (r: Result<seq<FieldValue>>)
    requires |current| == |decls| && forall i :: 0 <= i < |decls| ==> HasKind(current[i], decls[i].kind)
    ensures r.Success? ==> |r.value| == |decls| && forall i :: 0 <= i < |decls| ==> HasKind(r.value[i], decls[i].kind)
    ensures r.Success? <==> forall i :: 0 <= i < |decls| ==> DecodeField(m, decls[i], current[i]).Success?
    ensures r.Success? ==> forall i :: 0 <= i < |decls| ==> r.value[i] == DecodeField(m, decls[i], current[i]).value
  {
    if |decls| == 0 then Success([])
    else
      var head :- DecodeField(m, decls[0], current[0]);
      var tail :- DecodeFields(m, decls[1..], current[1..]);
      assert forall i :: 1 <= i < |decls| ==> decls[i] == decls[1..][i - 1] && current[i] == current[1..][i - 1];
      Success([head] + tail)
  }

  /** The reflective `of`. Every failure inside the field loop surfaces as one
      RuntimeException; an element of another type is an IllegalArgumentException. */
  function Of(e: Element, c: UnitClass): (r: Result<Unit>)
    ensures r.Success? ==> ClassOf(r.value) == c
    ensures e.Instance? ==> (r.Success? <==> ClassOf(e.unit) == c)
    ensures e.Instance? && r.Success? ==> r.value == e.unit
    ensures e.Json? && !e.value.Obj? ==> r.Failure?
  {
    match e
    case Json(Obj(m)) =>
      var decoded := DecodeFields(m, DeclaredFields(c), FieldsOf(NewInstance(c)));
      if decoded.Success? then Success(Build(c, decoded.value))
      else Failure("RuntimeException: Failed to deserialize")
    case Instance(u) =>
      if ClassOf(u) == c then Success(u) else Failure("IllegalArgumentException: Unexpected element type of Object")
    case Json(_) => Failure("IllegalArgumentException: Unexpected element type of Object")
  }

  function FromList(list: seq<Element>, c: UnitClass): (r: Result<seq<Unit>>)
    ensures r.Success? <==> forall i :: 0 <= i < |list| ==> Of(list[i], c).Success?
    ensures r.Success? ==> |r.value| == |list| && forall i :: 0 <= i < |list| ==> r.value[i] == Of(list[i], c).value
  {
    DecodeAll(list, e => Of(e, c))
  }

  /** How `toMap` writes one field: an enum by its name, everything else as is. */
  function EncodeField(v: FieldValue): (r: Value)
    ensures r != Null
  {
    match v
    case FBool(b) => Bool(b)
    case FStr(s) => Str(s)
    case FModifier(m) => Str(ModifierName(m))
  }

  /** Writes each declared field under its name. */
  function FieldsToMap(decls: seq<FieldDecl>, vs: seq<FieldValue>): (m: map<string, Value>)
    requires |decls| == |vs|
    ensures forall i :: 0 <= i < |decls| ==> decls[i].name in m
  {
    if |decls| == 0 then map[]
    else
      var rest := FieldsToMap(decls[1..], vs[1..]);
      assert forall i :: 1 <= i < |decls| ==> decls[i] == decls[1..][i - 1];
      rest[decls[0].name := EncodeField(vs[0])]
  }

  predicate DistinctNames(decls: seq<FieldDecl>) {
    forall j, k :: 0 <= j < k < |decls| ==> decls[j].name != decls[k].name
  }

  lemma DeclaredNamesDistinct(c: UnitClass)
    ensures DistinctNames(DeclaredFields(c))
  {
  }

  lemma {:induction false} FieldsToMapAt(decls: seq<FieldDecl>, vs: seq<FieldValue>, i: int)
    requires |decls| == |vs| && DistinctNames(decls) && 0 <= i < |decls|
    ensures FieldsToMap(decls, vs)[decls[i].name] == EncodeField(vs[i])
  {
    if i > 0 {
      assert decls[i] == decls[1..][i - 1];
      assert DistinctNames(decls[1..]) by {
        forall j, k | 0 <= j < k < |decls| - 1
          ensures decls[1..][j].name != decls[1..][k].name
        {
          assert decls[1..][j] == decls[j + 1] && decls[1..][k] == decls[k + 1];
        }
      }
      FieldsToMapAt(decls[1..], vs[1..], i - 1);
      assert decls[0].name != decls[i].name;
    }
  }

  /** `toMap`: one entry per declared field. */
  function ToMap(u: Unit): (m: map<string, Value>)
    ensures forall i :: 0 <= i < |DeclaredFields(ClassOf(u))| ==> DeclaredFields(ClassOf(u))[i].name in m
  {
    FieldsToMap(DeclaredFields(ClassOf(u)), FieldsOf(u))
  }

  /** Only declared fields are written. */
  lemma {:induction false} FieldsToMapKeys(decls: seq<FieldDecl>, vs: seq<FieldValue>, k: string)
    requires |decls| == |vs| && k in FieldsToMap(decls, vs)
    ensures exists i :: 0 <= i < |decls| && decls[i].name == k
  {
    if decls[0].name != k {
      FieldsToMapKeys(decls[1..], vs[1..], k);
      var i :| 0 <= i < |decls[1..]| && decls[1..][i].name == k;
      assert decls[i + 1].name == k;
    }
  }

  /** The keys of `toMap` are exactly the declared field names. */
  lemma ToMapKeys(u: Unit, k: string)
    ensures k in ToMap(u) <==> exists i :: 0 <= i < |DeclaredFields(ClassOf(u))| && DeclaredFields(ClassOf(u))[i].name == k
  {
    if k in ToMap(u) {
      FieldsToMapKeys(DeclaredFields(ClassOf(u)), FieldsOf(u), k);
    }
  }

  lemma ToMapEntry(u: Unit, i: int)
    requires 0 <= i < |DeclaredFields(ClassOf(u))|
    ensures DeclaredFields(ClassOf(u))[i].name in ToMap(u)
    ensures ToMap(u)[DeclaredFields(ClassOf(u))[i].name] == EncodeField(FieldsOf(u)[i])
  {
    DeclaredNamesDistinct(ClassOf(u));
    FieldsToMapAt(DeclaredFields(ClassOf(u)), FieldsOf(u), i);
  }

  /** Every declared field reads back the value it was written with. */
  lemma DecodeEncodedField(u: Unit, i: int, current: FieldValue)
    requires 0 <= i < |DeclaredFields(ClassOf(u))|
    requires HasKind(current, DeclaredFields(ClassOf(u))[i].kind)
    ensures DecodeField(ToMap(u), DeclaredFields(ClassOf(u))[i], current) == Success(FieldsOf(u)[i])
  {
    ToMapEntry(u, i);
    var v := FieldsOf(u)[i];
    if v.FModifier? {
      ModifierNameRoundTrip(v.m);
    }
  }

  /** The list editor's save format reads back to the same unit: `of(toMap(u)) == u`. */
  lemma {:induction false} OfToMap(u: Unit)
    ensures Of(Json(Obj(ToMap(u))), ClassOf(u)) == Success(u)
  {
    var c := ClassOf(u);
    var decls := DeclaredFields(c);
    var init := FieldsOf(NewInstance(c));
    forall i | 0 <= i < |decls|
      ensures DecodeField(ToMap(u), decls[i], init[i]) == Success(FieldsOf(u)[i])
    {
      DecodeEncodedField(u, i, init[i]);
    }
    var decoded := DecodeFields(ToMap(u), decls, init);
    assert decoded.value == FieldsOf(u);
    BuildFieldsOf(u);
  }

  /** The features read back what the list editor saved: the per-class decoders
      agree with `toMap` as well. */
  lemma MacroOfReadsToMap(m: MacroUnit)
    ensures MacroOf(Json(Obj(ToMap(Macro(m))))) == Success(m)
  {
    var u := Macro(m);
    ToMapEntry(u, 0);
    ToMapEntry(u, 1);
    ToMapEntry(u, 2);
    ToMapEntry(u, 3);
    ModifierNameRoundTrip(m.modifier);
  }

  lemma AliasOfReadsToMap(a: AliasUnit)
    ensures AliasOf(Json(Obj(ToMap(Alias(a))))) == Success(a)
  {
    var u := Alias(a);
    ToMapEntry(u, 0);
    ToMapEntry(u, 1);
    ToMapEntry(u, 2);
  }

  /** The entry `toMap` writes for declared field `i`, looked up by its literal name. */
  lemma ToMapNamed(u: Unit, i: int, name: string)
    requires 0 <= i < |DeclaredFields(ClassOf(u))| && DeclaredFields(ClassOf(u))[i].name == name
    ensures name in ToMap(u) && ToMap(u)[name] == EncodeField(FieldsOf(u)[i])
  {
    ToMapEntry(u, i);
  }

  lemma NotificationMapEntries(n: NotificationUnit)
    ensures var m := ToMap(Notification(n));
      && "pattern" in m && m["pattern"] == Str(n.pattern)
      && "regex" in m && m["regex"] == Bool(n.regex)
      && "sound" in m && m["sound"] == Str(n.sound)
      && "soundEnabled" in m && m["soundEnabled"] == Bool(n.soundEnabled)
      && "title" in m && m["title"] == Str(n.title)
      && "titleEnabled" in m && m["titleEnabled"] == Bool(n.titleEnabled)
      && "command" in m && m["command"] == Str(n.command)
      && "commandEnabled" in m && m["commandEnabled"] == Bool(n.commandEnabled)
      && "enabled" in m && m["enabled"] == Bool(n.enabled)
  {
    var u := Notification(n);
    ToMapNamed(u, 0, "pattern");
    ToMapNamed(u, 1, "regex");
    ToMapNamed(u, 2, "sound");
    ToMapNamed(u, 3, "soundEnabled");
    ToMapNamed(u, 4, "title");
    ToMapNamed(u, 5, "titleEnabled");
    ToMapNamed(u, 6, "command");
    ToMapNamed(u, 7, "commandEnabled");
    ToMapNamed(u, 8, "enabled");
  }

  lemma NotificationOfReadsToMap(n: NotificationUnit)
    ensures NotificationOf(Json(Obj(ToMap(Notification(n))))) == Success(n)
  {
    NotificationMapEntries(n);
  }

  lemma WhitelistOfReadsToMap(w: WhitelistUnit)
    ensures WhitelistOf(Json(Obj(ToMap(Whitelist(w))))) == Success(w)
  {
    var u := Whitelist(w);
    ToMapEntry(u, 0);
    ToMapEntry(u, 1);
    ToMapEntry(u, 2);
  }

  /** The two decoders differ on a missing `enabled`: the per-class one falls back
      on the constructor's `true`, the reflective one on `getDefaultValue`'s `false`. */
  lemma DecodersDisagreeOnMissingEnabled()
    ensures MacroOf(Json(Obj(map[]))).value.enabled
    ensures !Of(Json(Obj(map[])), MacroClass).value.Macro?
         || !Of(Json(Obj(map[])), MacroClass).value.macro.enabled
  {
  }
}
