/** Whether a configured key, together with its required modifier, is held
    right now. GLFW's key and mouse-button state is an explicit snapshot, and
    the lookup of a key by its name (`InputConstants.getKey`) is a parameter.
    That parameter is total: a name Minecraft does not know makes `getKey`
    throw, and the model answers with whatever key `resolve` gives instead. */
module KeyboardUtils {
  import opened SpecialUnits

  /** How a key is addressed: a GLFW key code, a platform scan code, or a mouse button. */
  datatype KeyType = Keysym | Scancode | Mouse

  datatype InputKey = InputKey(keyType: KeyType, value: int)

  /** `InputConstants.UNKNOWN.getValue()`. */
  const UNKNOWN_VALUE: int := -1

  const GLFW_KEY_LEFT_SHIFT: int := 340
  const GLFW_KEY_LEFT_CONTROL: int := 341
  const GLFW_KEY_LEFT_ALT: int := 342
  const GLFW_KEY_RIGHT_SHIFT: int := 344
  const GLFW_KEY_RIGHT_CONTROL: int := 345
  const GLFW_KEY_RIGHT_ALT: int := 346

  /** The GLFW key codes and mouse buttons in the PRESS state. */
  datatype InputState = InputState(keysDown: set<int>, buttonsDown: set<int>)

  /** The modifier requirement: either the left or the right variant is down;
      NONE asks for nothing. */
  predicate ModifierHeld(m: KeyModifier, st: InputState) {
    match m
    case Alt => GLFW_KEY_LEFT_ALT in st.keysDown || GLFW_KEY_RIGHT_ALT in st.keysDown
    case Shift => GLFW_KEY_LEFT_SHIFT in st.keysDown || GLFW_KEY_RIGHT_SHIFT in st.keysDown
    case Ctrl => GLFW_KEY_LEFT_CONTROL in st.keysDown || GLFW_KEY_RIGHT_CONTROL in st.keysDown
    case NoModifier => true
  }

  /** The key itself is down: a keyboard key by key code, a mouse key by
      button; a scan-code key never reports down. */
  predicate KeyDown(k: InputKey, st: InputState) {
    match k.keyType
    case Keysym => k.value in st.keysDown
    case Mouse => k.value in st.buttonsDown
    case Scancode => false
  }

  /** `isKeyPressingWithModifier`. `resolve` is `InputConstants.getKey`. */
  function IsKeyPressingWithModifier(name: string, modifier: KeyModifier,
                                     resolve: string -> InputKey, st: InputState): (r: bool)
    ensures name == UNKNOWN_KEY_NAME ==> !r
    ensures name != UNKNOWN_KEY_NAME ==> (r <==> ModifierHeld(modifier, st) && KeyDown(resolve(name), st))
  {
    if name == UNKNOWN_KEY_NAME then false
    else if !ModifierHeld(modifier, st) then false
    else
      var key := resolve(name);
      match key.keyType
      case Keysym => key.value in st.keysDown
      case Mouse => key.value in st.buttonsDown
      case Scancode => false
  }

  /** A binding with a modifier is exactly its bare key plus that modifier:
      NONE requires no modifier and forbids none. */
  lemma ModifierIsAnExtraCondition(name: string, modifier: KeyModifier, resolve: string -> InputKey, st: InputState)
    ensures IsKeyPressingWithModifier(name, modifier, resolve, st) <==>
      IsKeyPressingWithModifier(name, NoModifier, resolve, st) && ModifierHeld(modifier, st)
  {
  }

  /** Holding more keys and buttons never releases a binding. */
  lemma PressingIsMonotone(name: string, modifier: KeyModifier, resolve: string -> InputKey,
                           st: InputState, more: InputState)
    requires st.keysDown <= more.keysDown && st.buttonsDown <= more.buttonsDown
    ensures IsKeyPressingWithModifier(name, modifier, resolve, st) ==>
      IsKeyPressingWithModifier(name, modifier, resolve, more)
  {
  }
}
