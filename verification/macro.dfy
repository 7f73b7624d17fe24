/** Chat macros: on every client tick with no screen open, each enabled macro
    whose key and modifier are held sends its command once per press. The
    macro list is cached and reloaded only when the config version changes. */
module Macro {
  import opened Wrappers
  import opened ConfigValue
  import opened ConfigKeys
  import opened SpecialUnits
  import opened KeyboardUtils
  import CP = ConfigProvider

  /** The cached config: the version it was read at (-1 before the first
      read), the enabled flag and the decoded macros. */
  datatype Cache = Cache(version: int, enabled: bool, macros: seq<MacroUnit>)

  const INITIAL_CACHE: Cache := Cache(-1, false, [])

  /** `refreshCache`. The version and the flag are stored before the list is
      decoded, so a list that fails to decode throws once and is not retried
      until the config changes again; the old macros stay cached. */
  function RefreshCache(c: Cache, p: CP.Provider): (r: (Cache, Option<string>))
    ensures c.version == p.version ==> r == (c, None)
    ensures c.version != p.version ==>
      && r.0.version == p.version
      && r.0.enabled == CP.GetBoolean(p, MACRO_ENABLED, false)
      && var decoded := DecodeAll(FromJson(CP.GetList(p, MACRO_LIST)), MacroOf);
         (decoded.Success? ==> r == (r.0.(macros := decoded.value), None))
         && (decoded.Failure? ==> r.0.macros == c.macros && r.1.Some?)
  {
    if c.version == p.version then (c, None)
    else
      var enabled := CP.GetBoolean(p, MACRO_ENABLED, false);
      var raw := CP.GetList(p, MACRO_LIST);
      var decoded := if raw == [] then Success([]) else DecodeAll(FromJson(raw), MacroOf);
      match decoded
      case Success(ms) => (Cache(p.version, enabled, ms), None)
      case Failure(e) => (Cache(p.version, enabled, c.macros), Some(e))
  }

  /** `isEnabled`. */
  function IsEnabled(c: Cache, p: CP.Provider): (r: (Cache, bool))
    ensures r.0 == RefreshCache(c, p).0
    ensures r.1 == r.0.enabled
  {
    var c' := RefreshCache(c, p).0;
    (c', c'.enabled)
  }

  predicate Held(m: MacroUnit, resolve: string -> InputKey, st: InputState) {
    m.enabled && IsKeyPressingWithModifier(m.key, m.modifier, resolve, st)
  }

  /** The loop of `tick` over the cached macros: a held macro not yet in
      `pressed` fires and is added; a macro not held is removed. */
  function Scan(ms: seq<MacroUnit>, pressed: set<MacroUnit>, resolve: string -> InputKey, st: InputState)
    : (r: (set<MacroUnit>, seq<MacroUnit>))
    ensures forall m :: m in ms ==> (m in r.0 <==> Held(m, resolve, st))
    ensures forall m :: m !in ms ==> (m in r.0 <==> m in pressed)
    ensures forall m :: m in r.1 <==> m in ms && Held(m, resolve, st) && m !in pressed
    ensures forall i, j :: 0 <= i < j < |r.1| ==> r.1[i] != r.1[j]
    ensures |r.1| <= |ms|
    ensures (forall m :: m in ms && Held(m, resolve, st) ==> m in pressed) ==> r.1 == []
  {
    if ms == [] then (pressed, [])
    else
      var m := ms[0];
      if Held(m, resolve, st) then
        if m !in pressed then
          var rest := Scan(ms[1..], pressed + {m}, resolve, st);
          (rest.0, [m] + rest.1)
        else Scan(ms[1..], pressed, resolve, st)
      else Scan(ms[1..], pressed - {m}, resolve, st)
  }

  datatype State = State(cache: Cache, keyWasPressed: set<MacroUnit>)

  const INITIAL: State := State(INITIAL_CACHE, {})

  /** What one tick did: the new state, the macros that fired (their commands
      go to `MessageUtils.sendToPublicChat` in this order), and the exception
      that ended the tick, if any. */
  datatype TickResult = TickResult(state: State, fired: seq<MacroUnit>, error: Option<string>)

  function Tick(s: State, screenOpen: bool, p: CP.Provider, resolve: string -> InputKey, st: InputState): (r: TickResult)
    ensures screenOpen ==> r == TickResult(s, [], None)
    ensures !screenOpen ==> r.state.cache == RefreshCache(s.cache, p).0 && r.error == RefreshCache(s.cache, p).1
    ensures r.error.Some? ==> r.fired == [] && r.state.keyWasPressed == s.keyWasPressed
    ensures forall m :: m in r.fired <==>
      !screenOpen && r.error.None? && m in r.state.cache.macros && Held(m, resolve, st) && m !in s.keyWasPressed
    ensures forall i, j :: 0 <= i < j < |r.fired| ==> r.fired[i] != r.fired[j]
    ensures (forall m :: m in r.state.cache.macros && Held(m, resolve, st) ==> m in s.keyWasPressed) ==> r.fired == []
  {
    if screenOpen then TickResult(s, [], None)
    else
      var (cache, err) := RefreshCache(s.cache, p);
      if err.Some? then TickResult(State(cache, s.keyWasPressed), [], err)
      else
        var (pressed, fired) := Scan(cache.macros, s.keyWasPressed, resolve, st);
        TickResult(State(cache, pressed), fired, None)
  }

  /** Holding the same keys over two ticks with no config change fires
      nothing on the second tick. */
  lemma HeldKeysFireOnce(s: State, p: CP.Provider, resolve: string -> InputKey, st: InputState)
    ensures var first := Tick(s, false, p, resolve, st);
      first.error.None? ==> Tick(first.state, false, p, resolve, st).fired == []
  {
    var first := Tick(s, false, p, resolve, st);
    if first.error.None? {
      assert first.state.cache.version == p.version;
    }
  }

  /** A tick on which a cached macro is released re-arms it: the next tick
      on which it is held fires it again. */
  lemma ReleaseRearms(s: State, p: CP.Provider, resolve: string -> InputKey,
                      released: InputState, held: InputState, m: MacroUnit)
    requires !Held(m, resolve, released) && Held(m, resolve, held)
    ensures var first := Tick(s, false, p, resolve, released);
      first.error.None? && m in first.state.cache.macros ==>
      m in Tick(first.state, false, p, resolve, held).fired
  {
    var first := Tick(s, false, p, resolve, released);
    if first.error.None? && m in first.state.cache.macros {
      assert m !in first.state.keyWasPressed;
      assert RefreshCache(first.state.cache, p) == (first.state.cache, None);
    }
  }
}
