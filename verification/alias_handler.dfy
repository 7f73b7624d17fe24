/** Command aliases: an outgoing command whose first word, or whole text, is a
    configured alias is rewritten to the alias's replacement. */
module AliasHandler {
  import opened Wrappers
  import opened JavaText
  import opened ConfigValue
  import opened ConfigKeys
  import opened SpecialUnits
  import CP = ConfigProvider

  /** The prefix form: the message starts with the alias followed by a space. */
  predicate PrefixForm(a: AliasUnit, message: string) {
    StartsWith(message, a.alias + " ")
  }

  /** An alias takes part only when enabled and non-empty; it then matches in
      the prefix form or when the message is exactly the alias. */
  predicate Matches(a: AliasUnit, message: string) {
    a.enabled && a.alias != [] && (PrefixForm(a, message) || message == a.alias)
  }

  /** The rewrite of one matching alias. */
  function Apply(a: AliasUnit, message: string): (r: string)
    requires Matches(a, message)
    ensures PrefixForm(a, message) ==> |a.alias| < |message| && r == a.replacement + message[|a.alias|..]
    ensures message == a.alias ==> r == a.replacement
  {
    if PrefixForm(a, message) then a.replacement + message[|a.alias|..] else a.replacement
  }

  /** Alias `k` is the first in the list that matches. */
  predicate FirstMatchAt(aliases: seq<AliasUnit>, message: string, k: int) {
    && 0 <= k < |aliases|
    && Matches(aliases[k], message)
    && (forall i :: 0 <= i < k ==> !Matches(aliases[i], message))
  }

  /** The loop of `processMessage`: aliases are tried in order, and the first
      that matches in either form decides the result. */
  function Rewrite(aliases: seq<AliasUnit>, message: string): (r: string)
    ensures (forall i :: 0 <= i < |aliases| ==> !Matches(aliases[i], message)) ==> r == message
    ensures forall k :: FirstMatchAt(aliases, message, k) ==> r == Apply(aliases[k], message)
  {
    if aliases == [] then message
    else if Matches(aliases[0], message) then Apply(aliases[0], message)
    else
      var r := Rewrite(aliases[1..], message);
      assert forall k :: FirstMatchAt(aliases, message, k) ==> r == Apply(aliases[k], message) by {
        forall k | FirstMatchAt(aliases, message, k)
          ensures r == Apply(aliases[k], message)
        {
          assert k >= 1;
          assert FirstMatchAt(aliases[1..], message, k - 1);
        }
      }
      r
  }

  /** `processMessage`; `fromList` can throw on a malformed entry, which
      becomes a failure here. */
  function ProcessMessage(p: CP.Provider, message: string): (r: Result<string>)
    ensures !StartsWith(message, "/") ==> r == Success(message)
    ensures !CP.GetBoolean(p, ALIASES_ENABLED, false) ==> r == Success(message)
    ensures CP.GetList(p, ALIASES_LIST) == [] ==> r == Success(message)
    ensures StartsWith(message, "/") && CP.GetBoolean(p, ALIASES_ENABLED, false) && CP.GetList(p, ALIASES_LIST) != [] ==>
      var decoded := DecodeAll(FromJson(CP.GetList(p, ALIASES_LIST)), AliasOf);
      (decoded.Success? ==> r == Success(Rewrite(decoded.value, message)))
      && (decoded.Failure? ==> r.Failure?)
  {
    if !StartsWith(message, "/") then Success(message)
    else if !CP.GetBoolean(p, ALIASES_ENABLED, false) then Success(message)
    else
      var raw := CP.GetList(p, ALIASES_LIST);
      if raw == [] then Success(message)
      else
        var aliases :- DecodeAll(FromJson(raw), AliasOf);
        Success(Rewrite(aliases, message))
  }

  /** An entry that can never match (disabled, or with an empty alias) may be
      inserted anywhere in the list without changing any rewrite. */
  lemma {:induction false} InertEntryIgnored(aliases: seq<AliasUnit>, i: nat, a: AliasUnit, message: string)
    requires i <= |aliases|
    requires !a.enabled || a.alias == []
    ensures Rewrite(aliases[..i] + [a] + aliases[i..], message) == Rewrite(aliases, message)
    decreases i
  {
    var longer := aliases[..i] + [a] + aliases[i..];
    if i == 0 {
      assert longer == [a] + aliases;
      assert longer[1..] == aliases;
    } else {
      InertEntryIgnored(aliases[1..], i - 1, a, message);
      assert longer[0] == aliases[0];
      assert longer[1..] == aliases[1..][..i - 1] + [a] + aliases[1..][i - 1..];
    }
  }

  /** The prefix form keeps everything after the alias, the separating space
      included, and puts the replacement in front of it; the result is not
      rewritten a second time. */
  lemma PrefixRewriteKeepsArguments(a: AliasUnit, rest: seq<AliasUnit>, args: string)
    requires a.enabled && a.alias != []
    ensures var message := a.alias + " " + args;
      Rewrite([a] + rest, message) == a.replacement + " " + args
  {
    var message := a.alias + " " + args;
    assert message[..|a.alias + " "|] == a.alias + " ";
    assert Matches(a, message);
    assert message[|a.alias|..] == " " + args;
  }
}
