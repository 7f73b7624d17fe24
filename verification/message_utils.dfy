/** Sending a line to the server as the player: blank text is ignored, a line
    starting with '/' goes out as a command (without the slash) at most once
    per 50 ms, anything else goes out as chat. The clock reading is a parameter. */
module MessageUtils {
  import opened Wrappers
  import opened JavaText

  const COMMAND_RATE_LIMIT_MS: int := 50

  /** `lastCommandTime` and the chat screen's recent-message history. */
  datatype Chat = Chat(lastCommandTime: int, recent: seq<string>)

  const INITIAL: Chat := Chat(0, [])

  datatype Sent = Command(command: string) | Message(text: string)

  predicate IsCommand(trimmed: string) {
    StartsWith(trimmed, "/")
  }

  /** `sendToPublicChat(text)` at clock reading `now`. */
  function SendToPublicChat(c: Chat, playerPresent: bool, text: string, now: int): (r: (Chat, Option<Sent>))
    ensures !playerPresent || Trim(text) == [] ==> r == (c, None)
    ensures playerPresent && IsCommand(Trim(text)) && now - c.lastCommandTime < COMMAND_RATE_LIMIT_MS ==> r == (c, None)
    ensures r.1.Some? ==> r.0.recent == c.recent + [text]
    ensures r.1.None? ==> r.0 == c
    ensures r.1.Some? && r.1.value.Command? ==>
      && IsCommand(Trim(text)) && r.1.value.command == Trim(text)[1..]
      && now - c.lastCommandTime >= COMMAND_RATE_LIMIT_MS && r.0.lastCommandTime == now
    ensures r.1.Some? && r.1.value.Message? ==>
      !IsCommand(Trim(text)) && r.1.value.text == Trim(text) && r.0.lastCommandTime == c.lastCommandTime
    ensures playerPresent && Trim(text) != [] && !IsCommand(Trim(text)) ==> r.1 == Some(Message(Trim(text)))
  {
    if !playerPresent then (c, None)
    else
      var trimmed := Trim(text);
      if trimmed == [] then (c, None)
      else if IsCommand(trimmed) && now - c.lastCommandTime < COMMAND_RATE_LIMIT_MS then (c, None)
      else
        var recent := c.recent + [text];
        if IsCommand(trimmed) then (Chat(now, recent), Some(Command(trimmed[1..])))
        else (Chat(c.lastCommandTime, recent), Some(Message(trimmed)))
  }

  datatype SendCall = SendCall(playerPresent: bool, text: string, now: int)

  /** A run of `sendToPublicChat` calls; returns the final state and the clock
      readings at which commands went out. */
  function Run(c: Chat, calls: seq<SendCall>): (r: (Chat, seq<int>))
    ensures |r.1| <= |calls|
    ensures c.recent <= r.0.recent
    ensures forall k :: 0 <= k < |r.1| ==> exists i :: 0 <= i < |calls| && calls[i].now == r.1[k]
    decreases |calls|
  {
    if calls == [] then (c, [])
    else
      var (c', sent) := SendToPublicChat(c, calls[0].playerPresent, calls[0].text, calls[0].now);
      var (last, times) := Run(c', calls[1..]);
      assert forall i :: 0 <= i < |calls| - 1 ==> calls[1..][i] == calls[i + 1];
      if sent.Some? && sent.value.Command? then
        var all := [calls[0].now] + times;
        assert forall k :: 1 <= k < |all| ==> all[k] == times[k - 1];
        (last, all)
      else (last, times)
  }

  /** Each command time is at least the limit after the one before it, the
      first one at least the limit after `last`. */
  predicate Spaced(last: int, times: seq<int>)
    decreases |times|
  {
    times == [] || (last + COMMAND_RATE_LIMIT_MS <= times[0] && Spaced(times[0], times[1..]))
  }

  /** However the calls are timed, commands leave at least 50 ms apart. */
  lemma {:induction false} CommandsAreSpaced(c: Chat, calls: seq<SendCall>)
    ensures Spaced(c.lastCommandTime, Run(c, calls).1)
    decreases |calls|
  {
    if calls != [] {
      var step := SendToPublicChat(c, calls[0].playerPresent, calls[0].text, calls[0].now);
      var c', sent := step.0, step.1;
      CommandsAreSpaced(c', calls[1..]);
      var times := Run(c', calls[1..]).1;
      if sent.Some? && sent.value.Command? {
        var all := [calls[0].now] + times;
        assert Run(c, calls).1 == all;
        assert all[1..] == times;
      } else {
        assert Run(c, calls).1 == times;
      }
    }
  }
}
