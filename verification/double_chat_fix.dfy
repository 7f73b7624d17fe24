/** Suppression of the character that leaks into the chat box when the chat
    or command key opens it: a key press of either key remembers the event
    poll it arrived on, and a typed character within five polls of it is
    swallowed once. GLFW's callbacks become the three events below. */
module DoubleChatFix {
  import opened KeyboardUtils

  /** How close, in polls, a typed character must follow the key press. */
  const MAX_POLL_GAP: nat := 5

  /** `pollCount` and `prevKeyPoll` (-1 when no press is pending). */
  datatype State = State(pollCount: nat, prevKeyPoll: int)

  const INITIAL: State := State(0, -1)

  predicate Valid(s: State) {
    s.prevKeyPoll == -1 || 0 <= s.prevKeyPoll <= s.pollCount
  }

  predicate Pending(s: State) {
    s.prevKeyPoll != -1
  }

  function Poll(s: State): (r: State)
    requires Valid(s)
    ensures Valid(r) && r.pollCount == s.pollCount + 1 && r.prevKeyPoll == s.prevKeyPoll
  {
    s.(pollCount := s.pollCount + 1)
  }

  /** `matchesKey`: with an unknown key code the scan code is compared against
      a scan-code binding; otherwise the key code against a key-code binding. */
  function MatchesKey(bound: InputKey, key: int, scancode: int): (r: bool)
    ensures key == UNKNOWN_VALUE ==> (r <==> bound.keyType == Scancode && bound.value == scancode)
    ensures key != UNKNOWN_VALUE ==> (r <==> bound.keyType == Keysym && bound.value == key)
  {
    if key == UNKNOWN_VALUE then bound.keyType == Scancode && bound.value == scancode
    else bound.keyType == Keysym && bound.value == key
  }

  /** The key callback; it always answers PASS, so only the state is returned. */
  function OnKey(s: State, isPress: bool, screenOpen: bool, chatKey: InputKey, commandKey: InputKey,
                 key: int, scancode: int): (r: State)
    requires Valid(s)
    ensures Valid(r) && r.pollCount == s.pollCount
    ensures !isPress || screenOpen ==> r == s
    ensures isPress && !screenOpen ==>
      r.prevKeyPoll == (if MatchesKey(chatKey, key, scancode) || MatchesKey(commandKey, key, scancode)
                        then s.pollCount as int else -1)
  {
    if !isPress || screenOpen then s
    else if MatchesKey(chatKey, key, scancode) || MatchesKey(commandKey, key, scancode) then s.(prevKeyPoll := s.pollCount)
    else s.(prevKeyPoll := -1)
  }

  /** The char callback; true is FAIL, which drops the character. */
  function OnChar(s: State): (r: (State, bool))
    requires Valid(s)
    ensures Valid(r.0) && r.0.pollCount == s.pollCount
    ensures r.1 <==> Pending(s) && s.pollCount - s.prevKeyPoll <= MAX_POLL_GAP
    ensures r.1 ==> !Pending(r.0)
    ensures !r.1 ==> r.0 == s
  {
    if s.prevKeyPoll == -1 || s.pollCount - s.prevKeyPoll > MAX_POLL_GAP then (s, false)
    else (s.(prevKeyPoll := -1), true)
  }

  datatype Event =
    | PollEvent
    | KeyEvent(isPress: bool, screenOpen: bool, key: int, scancode: int)
    | CharEvent

  /** A key event that arms the suppression. */
  predicate IsTrigger(e: Event, chatKey: InputKey, commandKey: InputKey) {
    e.KeyEvent? && e.isPress && !e.screenOpen &&
    (MatchesKey(chatKey, e.key, e.scancode) || MatchesKey(commandKey, e.key, e.scancode))
  }

  function CountTriggers(events: seq<Event>, chatKey: InputKey, commandKey: InputKey): nat {
    if events == [] then 0
    else (if IsTrigger(events[0], chatKey, commandKey) then 1 else 0) + CountTriggers(events[1..], chatKey, commandKey)
  }

  /** Replays events; returns the final state and how many characters were dropped. */
  function Run(s: State, events: seq<Event>, chatKey: InputKey, commandKey: InputKey): (r: (State, nat))
    requires Valid(s)
    ensures Valid(r.0)
    decreases |events|
  {
    if events == [] then (s, 0)
    else
      match events[0]
      case PollEvent => Run(Poll(s), events[1..], chatKey, commandKey)
      case KeyEvent(isPress, screenOpen, key, scancode) =>
        Run(OnKey(s, isPress, screenOpen, chatKey, commandKey, key, scancode), events[1..], chatKey, commandKey)
      case CharEvent =>
        var (s', dropped) := OnChar(s);
        var (last, n) := Run(s', events[1..], chatKey, commandKey);
        (last, n + if dropped then 1 else 0)
  }

  /** At most one character is dropped per press of the chat or command key
      (plus one for a press already pending at the start). */
  lemma {:induction false} DropsBoundedByPresses(s: State, events: seq<Event>, chatKey: InputKey, commandKey: InputKey)
    requires Valid(s)
    ensures var r := Run(s, events, chatKey, commandKey);
      r.1 + (if Pending(r.0) then 1 else 0) <= CountTriggers(events, chatKey, commandKey) + (if Pending(s) then 1 else 0)
    decreases |events|
  {
    if events != [] {
      match events[0]
      case PollEvent =>
        DropsBoundedByPresses(Poll(s), events[1..], chatKey, commandKey);
      case KeyEvent(isPress, screenOpen, key, scancode) =>
        DropsBoundedByPresses(OnKey(s, isPress, screenOpen, chatKey, commandKey, key, scancode), events[1..], chatKey, commandKey);
      case CharEvent =>
        DropsBoundedByPresses(OnChar(s).0, events[1..], chatKey, commandKey);
    }
  }

  /** From the initial state, drops never outnumber trigger presses. */
  lemma DropsFromStart(events: seq<Event>, chatKey: InputKey, commandKey: InputKey)
    ensures Run(INITIAL, events, chatKey, commandKey).1 <= CountTriggers(events, chatKey, commandKey)
  {
    DropsBoundedByPresses(INITIAL, events, chatKey, commandKey);
  }
}
