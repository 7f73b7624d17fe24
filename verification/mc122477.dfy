/** The counter-based variant of the double-character fix (Minecraft bug
    MC-122477): a press of the chat or command key arms a poll counter at 0,
    each event poll advances an armed counter and disarms it past 10, and a
    typed character is cancelled, once, while the counter is below 6. */
module MC122477FixUtil {
  import opened KeyboardUtils

  const CANCEL_WINDOW: int := 6
  const MAX_POLLS: int := 10

  /** `pollsSinceKeyPress`; -1 is disarmed. */
  datatype Counter = Counter(polls: int)

  const INITIAL: Counter := Counter(-1)

  predicate Valid(c: Counter) {
    -1 <= c.polls <= MAX_POLLS
  }

  predicate Armed(c: Counter) {
    c.polls >= 0
  }

  /** `matches`: only a key-code binding with the same code. */
  predicate Matches(key: int, bound: InputKey) {
    bound.value == key && bound.keyType == Keysym
  }

  /** `onKeyPress`. */
  function OnKeyPress(c: Counter, isPress: bool, screenOpen: bool, key: int, chatKey: InputKey, commandKey: InputKey): (r: Counter)
    requires Valid(c)
    ensures Valid(r)
    ensures isPress && !screenOpen && (Matches(key, chatKey) || Matches(key, commandKey)) ==> r == Counter(0)
    ensures !(isPress && !screenOpen && (Matches(key, chatKey) || Matches(key, commandKey))) ==> r == c
  {
    if isPress && !screenOpen && (Matches(key, chatKey) || Matches(key, commandKey)) then Counter(0) else c
  }

  /** `shouldCancelChar`. */
  function ShouldCancelChar(c: Counter): (r: (Counter, bool))
    requires Valid(c)
    ensures Valid(r.0)
    ensures r.1 <==> 0 <= c.polls < CANCEL_WINDOW
    ensures r.1 ==> r.0 == Counter(-1)
    ensures !r.1 ==> r.0 == c
  {
    if 0 <= c.polls < CANCEL_WINDOW then (Counter(-1), true) else (c, false)
  }

  /** `incrementPollCount`. */
  function IncrementPollCount(c: Counter): (r: Counter)
    requires Valid(c)
    ensures Valid(r)
    ensures !Armed(c) ==> r == c
    ensures Armed(c) && c.polls < MAX_POLLS ==> r == Counter(c.polls + 1)
    ensures Armed(c) && c.polls == MAX_POLLS ==> r == Counter(-1)
  {
    if c.polls >= 0 then
      var next := c.polls + 1;
      if next > MAX_POLLS then Counter(-1) else Counter(next)
    else c
  }

  datatype Event =
    | KeyPress(isPress: bool, screenOpen: bool, key: int)
    | CharTyped
    | PollTick

  predicate Arms(e: Event, chatKey: InputKey, commandKey: InputKey) {
    e.KeyPress? && e.isPress && !e.screenOpen && (Matches(e.key, chatKey) || Matches(e.key, commandKey))
  }

  function CountArms(events: seq<Event>, chatKey: InputKey, commandKey: InputKey): nat {
    if events == [] then 0
    else (if Arms(events[0], chatKey, commandKey) then 1 else 0) + CountArms(events[1..], chatKey, commandKey)
  }

  /** Replays events; returns the final counter and the number of cancelled characters. */
  function Run(c: Counter, events: seq<Event>, chatKey: InputKey, commandKey: InputKey): (r: (Counter, nat))
    requires Valid(c)
    ensures Valid(r.0)
    decreases |events|
  {
    if events == [] then (c, 0)
    else
      match events[0]
      case KeyPress(isPress, screenOpen, key) =>
        Run(OnKeyPress(c, isPress, screenOpen, key, chatKey, commandKey), events[1..], chatKey, commandKey)
      case PollTick => Run(IncrementPollCount(c), events[1..], chatKey, commandKey)
      case CharTyped =>
        var (c', cancelled) := ShouldCancelChar(c);
        var (last, n) := Run(c', events[1..], chatKey, commandKey);
        (last, n + if cancelled then 1 else 0)
  }

  /** Cancellations plus a still-armed counter never exceed the armings plus
      an arming pending at the start: one character per key press at most. */
  lemma {:induction false} CancelsBoundedByArms(c: Counter, events: seq<Event>, chatKey: InputKey, commandKey: InputKey)
    requires Valid(c)
    ensures var r := Run(c, events, chatKey, commandKey);
      r.1 + (if Armed(r.0) then 1 else 0) <= CountArms(events, chatKey, commandKey) + (if Armed(c) then 1 else 0)
    decreases |events|
  {
    if events != [] {
      match events[0]
      case KeyPress(isPress, screenOpen, key) =>
        CancelsBoundedByArms(OnKeyPress(c, isPress, screenOpen, key, chatKey, commandKey), events[1..], chatKey, commandKey);
      case PollTick =>
        CancelsBoundedByArms(IncrementPollCount(c), events[1..], chatKey, commandKey);
      case CharTyped =>
        CancelsBoundedByArms(ShouldCancelChar(c).0, events[1..], chatKey, commandKey);
    }
  }

  /** `n` event polls in a row. */
  function Polls(n: nat): (r: seq<Event>)
    ensures |r| == n && forall i :: 0 <= i < n ==> r[i] == PollTick
  {
    if n == 0 then [] else [PollTick] + Polls(n - 1)
  }

  /** The counter after `n` polls. */
  function AfterPolls(c: Counter, n: nat): (r: Counter)
    requires Valid(c)
    ensures Valid(r)
    decreases n
  {
    if n == 0 then c else AfterPolls(IncrementPollCount(c), n - 1)
  }

  /** Replaying polls first is the same as starting from the polled counter. */
  lemma {:induction false} RunPollsFirst(c: Counter, n: nat, rest: seq<Event>, chatKey: InputKey, commandKey: InputKey)
    requires Valid(c)
    ensures Run(c, Polls(n) + rest, chatKey, commandKey) == Run(AfterPolls(c, n), rest, chatKey, commandKey)
    decreases n
  {
    if n > 0 {
      var tail := Polls(n - 1) + rest;
      var events := Polls(n) + rest;
      assert events == [PollTick] + tail;
      assert events[0] == PollTick && events[1..] == tail;
      RunPollsFirst(IncrementPollCount(c), n - 1, rest, chatKey, commandKey);
    } else {
      assert Polls(n) + rest == rest;
    }
  }

  /** An armed counter at `k` has counted `k + n` polls, or disarmed once that
      passes ten. */
  lemma {:induction false} AfterPollsArmed(k: nat, n: nat)
    requires k <= MAX_POLLS
    ensures AfterPolls(Counter(k), n) == Counter(if k + n <= MAX_POLLS then k + n else -1)
    decreases n
  {
    if n > 0 {
      if k < MAX_POLLS {
        AfterPollsArmed(k + 1, n - 1);
      } else {
        AfterPollsDisarmed(n - 1);
      }
    }
  }

  /** A disarmed counter stays disarmed through any number of polls. */
  lemma {:induction false} AfterPollsDisarmed(n: nat)
    ensures AfterPolls(INITIAL, n) == INITIAL
  {
    if n > 0 {
      AfterPollsDisarmed(n - 1);
    }
  }

  /** A character typed six or more polls after the press is never cancelled,
      however many polls pass. */
  lemma LateCharPasses(c: Counter, chatKey: InputKey, commandKey: InputKey, key: int, n: nat)
    requires Valid(c) && Matches(key, chatKey)
    requires n >= CANCEL_WINDOW
    ensures var armed := OnKeyPress(c, true, false, key, chatKey, commandKey);
      Run(armed, Polls(n) + [CharTyped], chatKey, commandKey).1 == 0
  {
    var armed := OnKeyPress(c, true, false, key, chatKey, commandKey);
    RunPollsFirst(armed, n, [CharTyped], chatKey, commandKey);
    AfterPollsArmed(0, n);
  }

  /** A character typed within five polls of the press is cancelled. */
  lemma EarlyCharCancelled(c: Counter, chatKey: InputKey, commandKey: InputKey, key: int, n: nat)
    requires Valid(c) && Matches(key, chatKey)
    requires n < CANCEL_WINDOW
    ensures var armed := OnKeyPress(c, true, false, key, chatKey, commandKey);
      Run(armed, Polls(n) + [CharTyped], chatKey, commandKey) == (INITIAL, 1)
  {
    var armed := OnKeyPress(c, true, false, key, chatKey, commandKey);
    RunPollsFirst(armed, n, [CharTyped], chatKey, commandKey);
    AfterPollsArmed(0, n);
  }
}
