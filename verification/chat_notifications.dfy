/** Chat notifications: every incoming chat message is checked against the
    configured notification units, and each unit that matches, by regular
    expression on the legacy `§` text or by plain substring, plays its sound,
    shows its title and sends its command. The regular-expression engine, the
    sound registry and the pattern compiler are parameters. */
module ChatNotifications {
  import opened Wrappers
  import opened JavaText
  import opened ConfigValue
  import opened ConfigKeys
  import opened SpecialUnits
  import CP = ConfigProvider
  import TU = TextUtils
  import RT = RegexTester

  const MAX_PATTERN_LENGTH: int := 500

  // ---------------------------------------------------------------------------
  // isPatternSafe

  /** The characters Java's '.' does not match outside DOTALL mode. */
  predicate JavaLineTerminator(c: char) {
    c == '\n' || c == '\r' || c == '\U{0085}' || c == '\U{2028}' || c == '\U{2029}'
  }

  predicate NoTerminator(s: string) {
    forall k :: 0 <= k < |s| ==> !JavaLineTerminator(s[k])
  }

  predicate IsQuantifier(c: char) {
    c == '+' || c == '*' || c == '{'
  }

  /** What the group must contain: a quantifier for the nested-quantifier
      rule, a '|' for the alternation rule. */
  predicate GroupMark(c: char, alternation: bool) {
    if alternation then c == '|' else IsQuantifier(c)
  }

  /** The whole pattern matches `.*\([^)]*M[^)]*\)[+*{].*` with the group
      opening at `i` and closing at `j`: the group holds no ')' but some mark
      `M`, a quantifier follows it, and the two `.*` cross no line terminator. */
  predicate QuantifiedGroup(s: string, i: int, j: int, alternation: bool) {
    && 0 <= i < j && j + 1 < |s|
    && s[i] == '(' && s[j] == ')'
    && (forall k :: i < k < j ==> s[k] != ')')
    && (exists k :: i < k < j && GroupMark(s[k], alternation))
    && IsQuantifier(s[j + 1])
    && NoTerminator(s[..i]) && NoTerminator(s[j + 2..])
  }

  ghost predicate MatchesWhole(s: string, alternation: bool) {
    exists i, j :: QuantifiedGroup(s, i, j, alternation)
  }

  /** The ReDoS guard: at most 500 UTF-16 units long, no quantified group
      that holds a quantifier, no quantified group that holds an alternation. */
  ghost predicate PatternSafe(s: string) {
    Utf16Length(s) <= MAX_PATTERN_LENGTH && !MatchesWhole(s, false) && !MatchesWhole(s, true)
  }

  /** The first ')' at or after `k`, or `|s|` when there is none. */
  function FirstClose(s: string, k: nat): (j: nat)
    requires k <= |s|
    ensures k <= j <= |s|
    ensures j < |s| ==> s[j] == ')'
    ensures forall m :: k <= m < j ==> s[m] != ')'
    decreases |s| - k
  {
    if k == |s| || s[k] == ')' then k else FirstClose(s, k + 1)
  }

  /** The test for a quantified group opening at `i`: only the first ')'
      after it can close it. */
  predicate GroupAt(s: string, i: nat, alternation: bool)
    requires i < |s|
  {
    && s[i] == '('
    && var j := FirstClose(s, i + 1);
       && j + 1 < |s|
       && (exists k :: i < k < j && GroupMark(s[k], alternation))
       && IsQuantifier(s[j + 1])
       && NoTerminator(s[..i]) && NoTerminator(s[j + 2..])
  }

  lemma GroupAtIff(s: string, i: nat, alternation: bool)
    requires i < |s|
    ensures GroupAt(s, i, alternation) <==> exists j :: QuantifiedGroup(s, i, j, alternation)
  {
    if GroupAt(s, i, alternation) {
      assert QuantifiedGroup(s, i, FirstClose(s, i + 1), alternation);
    }
    forall j | QuantifiedGroup(s, i, j, alternation)
      ensures GroupAt(s, i, alternation)
    {
      var first := FirstClose(s, i + 1);
      assert first <= j;
      assert j <= first by {
        assert first < |s| ==> s[first] == ')';
      }
    }
  }

  /** Whether some opening parenthesis starts a quantified group. */
  predicate HasGroup(s: string, alternation: bool) {
    exists i :: 0 <= i < |s| && GroupAt(s, i, alternation)
  }

  lemma HasGroupIff(s: string, alternation: bool)
    ensures HasGroup(s, alternation) <==> MatchesWhole(s, alternation)
  {
    forall i, j | QuantifiedGroup(s, i, j, alternation)
      ensures HasGroup(s, alternation)
    {
      GroupAtIff(s, i, alternation);
    }
    forall i | 0 <= i < |s| && GroupAt(s, i, alternation)
      ensures MatchesWhole(s, alternation)
    {
      GroupAtIff(s, i, alternation);
    }
  }

  /** The guard in executable form, used when the cache is built. */
  predicate Safe(s: string)
    ensures Safe(s) <==> PatternSafe(s)
  {
    HasGroupIff(s, false);
    HasGroupIff(s, true);
    Utf16Length(s) <= MAX_PATTERN_LENGTH && !HasGroup(s, false) && !HasGroup(s, true)
  }

  /** One of the two whole-string checks, scanning every opening parenthesis. */
  method FindQuantifiedGroup(s: string, alternation: bool) returns (found: bool)
    ensures found <==> MatchesWhole(s, alternation)
  {
    var i := 0;
    while i < |s|
      invariant 0 <= i <= |s|
      invariant forall a, b :: 0 <= a < i ==> !QuantifiedGroup(s, a, b, alternation)
    {
      GroupAtIff(s, i, alternation);
      if GroupAt(s, i, alternation) {
        return true;
      }
      i := i + 1;
    }
    return false;
  }

  /** `isPatternSafe`, for the non-null patterns its one caller passes. */
  method IsPatternSafe(pattern: string) returns (safe: bool)
    ensures safe <==> PatternSafe(pattern)
  {
    if Utf16Length(pattern) > MAX_PATTERN_LENGTH {
      return false;
    }
    var nested := FindQuantifiedGroup(pattern, false);
    if nested {
      return false;
    }
    var alternated := FindQuantifiedGroup(pattern, true);
    return !alternated;
  }

  /** `(a+)+` is refused; `(a+)` and `(ab)+` are not. */
  lemma NestedQuantifierRefused()
    ensures !PatternSafe("(a+)+")
    ensures !MatchesWhole("(a+)", false) && !MatchesWhole("(a+)", true)
  {
    assert QuantifiedGroup("(a+)+", 0, 3, false) by {
      assert GroupMark("(a+)+"[2], false);
    }
  }

  /** The limit counts UTF-16 units: 251 emoji are 502 units, too long,
      although they are only 251 characters. */
  lemma EmojiPatternTooLong(s: string)
    requires |s| == 251 && forall k :: 0 <= k < |s| ==> s[k] == '\U{1F600}'
    ensures !PatternSafe(s) && |s| <= MAX_PATTERN_LENGTH
  {
  }

  // ---------------------------------------------------------------------------
  // replaceCaptureGroups

  /** The capture groups of a match: index 0 is the whole match, `None` a
      group that did not take part; `groupCount` is one less than the length. */
  type Groups = seq<Option<string>>

  /** The end of the maximal run of digits starting at `k`. */
  function DigitRunEnd(t: string, k: nat): (e: nat)
    requires k <= |t|
    ensures k <= e <= |t|
    ensures forall m :: k <= m < e ==> IsDigit(t[m])
    ensures e < |t| ==> !IsDigit(t[e])
    decreases |t| - k
  {
    if k < |t| && IsDigit(t[k]) then DigitRunEnd(t, k + 1) else k
  }

  /** `Integer.parseInt` of a run of digits: its value, unless that exceeds
      the largest int, which throws. */
  function GroupNumber(digits: string): (n: Option<nat>)
    requires forall m :: 0 <= m < |digits| ==> IsDigit(digits[m])
  {
    if DigitsValue(digits) <= INT_MAX then Some(DigitsValue(digits)) else None
  }

  lemma GroupNumberIsParseInt(digits: string)
    requires |digits| > 0 && forall m :: 0 <= m < |digits| ==> IsDigit(digits[m])
    ensures ParseInt(digits) == (match GroupNumber(digits) case Some(n) => Some(n as int) case None => None)
  {
    assert digits[0] != '-' && digits[0] != '+' by {
      assert IsDigit(digits[0]);
    }
  }

  function Prepend(p: string, r: Result<string>): Result<string> {
    match r
    case Success(v) => Success(p + v)
    case Failure(e) => Failure(e)
  }

  lemma PrependEmpty(r: Result<string>)
    ensures Prepend([], r) == r
  {
    if r.Success? {
      assert [] + r.value == r.value;
    }
  }

  lemma PrependPrepend(a: string, b: string, r: Result<string>)
    ensures Prepend(a, Prepend(b, r)) == Prepend(a + b, r)
  {
    if r.Success? {
      assert a + (b + r.value) == (a + b) + r.value;
    }
  }

  /** The text a group reference contributes: the group, or nothing for a
      group that did not take part. */
  function GroupText(groups: Groups, n: nat): string
    requires n < |groups|
  {
    if groups[n].Some? then groups[n].value else []
  }

  /** The substitution of `template[i..]`, read left to right: "\$" is a
      literal '$'; '$' and a maximal digit run is that group when it exists
      and the reference as written otherwise; anything else is copied. A run
      too long for an int throws. */
  function SubstFrom(template: string, i: nat, groups: Groups): Result<string>
    requires i <= |template|
    decreases |template| - i
  {
    if i == |template| then Success([])
    else if template[i] == '\\' && i + 1 < |template| && template[i + 1] == '$' then
      Prepend("$", SubstFrom(template, i + 2, groups))
    else if template[i] == '$' && i + 1 < |template| && IsDigit(template[i + 1]) then
      var end := DigitRunEnd(template, i + 1);
      match GroupNumber(template[i + 1..end])
      case None => Failure("NumberFormatException")
      case Some(n) =>
        Prepend(if n < |groups| then GroupText(groups, n) else template[i..end], SubstFrom(template, end, groups))
    else Prepend([template[i]], SubstFrom(template, i + 1, groups))
  }

  function Substitute(template: string, groups: Groups): Result<string> {
    SubstFrom(template, 0, groups)
  }

  /** `replaceCaptureGroups`, with the string builder and the two loops of
      the source. */
  method ReplaceCaptureGroups(template: string, groups: Groups) returns (r: Result<string>)
    ensures r == Substitute(template, groups)
  {
    var sb := "";
    var i := 0;
    PrependEmpty(Substitute(template, groups));
    while i < |template|
      invariant 0 <= i <= |template|
      invariant Substitute(template, groups) == Prepend(sb, SubstFrom(template, i, groups))
      decreases |template| - i
    {
      var c := template[i];
      if c == '\\' && i + 1 < |template| && template[i + 1] == '$' {
        PrependPrepend(sb, "$", SubstFrom(template, i + 2, groups));
        sb := sb + "$";
        i := i + 2;
      } else if c == '$' && i + 1 < |template| && IsDigit(template[i + 1]) {
        var start := i + 1;
        var end := start;
        while end < |template| && IsDigit(template[end])
          invariant start <= end <= |template|
          invariant DigitRunEnd(template, end) == DigitRunEnd(template, start)
          decreases |template| - end
        {
          end := end + 1;
        }
        assert end == DigitRunEnd(template, start);
        var n := GroupNumber(template[start..end]);
        if n.None? {
          return Failure("NumberFormatException");
        }
        ghost var piece := if n.value < |groups| then GroupText(groups, n.value) else template[i..end];
        PrependPrepend(sb, piece, SubstFrom(template, end, groups));
        if n.value <= |groups| - 1 {
          if groups[n.value].Some? {
            sb := sb + groups[n.value].value;
          } else {
            assert sb + [] == sb;
          }
        } else {
          sb := sb + template[i..end];
        }
        i := end;
      } else {
        PrependPrepend(sb, [c], SubstFrom(template, i + 1, groups));
        sb := sb + [c];
        i := i + 1;
      }
    }
    assert sb + [] == sb;
    return Success(sb);
  }

  /** A template without '$' comes back unchanged. */
  lemma {:induction false} NoDollarUnchanged(template: string, i: nat, groups: Groups)
    requires i <= |template|
    requires '$' !in template
    ensures SubstFrom(template, i, groups) == Success(template[i..])
    decreases |template| - i
  {
    if i < |template| {
      assert forall m :: i <= m < |template| ==> template[m] != '$' by {
        forall m | i <= m < |template|
          ensures template[m] != '$'
        {
          assert template[m] in template;
        }
      }
      assert template[i] != '$' by {
        assert template[i] in template;
      }
      NoDollarUnchanged(template, i + 1, groups);
      assert [template[i]] + template[i + 1..] == template[i..];
    }
  }

  /** "$12" with one group is the literal "$12", not group 1 and a '2'. */
  lemma UnknownGroupStaysLiteral(whole: Option<string>, first: Option<string>)
    ensures Substitute("$12", [whole, first]) == Success("$12")
  {
    var t := "$12";
    var groups := [whole, first];
    assert IsDigit(t[1]) && IsDigit(t[2]);
    assert DigitRunEnd(t, 1) == 3;
    assert t[1..3] == "12";
    assert DigitsValue("12") == 12 by {
      assert "12"[..1] == "1";
      assert "1"[..0] == [];
    }
    assert GroupNumber(t[1..3]) == Some(12);
    assert SubstFrom(t, 3, groups) == Success([]);
    assert t[0..3] == t;
    assert t + [] == t;
  }

  /** A reference to a group that exists is replaced by it, or by nothing
      when the group did not take part. */
  lemma GroupReferenceReplaced(groups: Groups, rest: string)
    requires |groups| >= 2
    requires rest == [] || !IsDigit(rest[0])
    ensures Substitute("$1" + rest, groups) == Prepend(GroupText(groups, 1), SubstFrom("$1" + rest, 2, groups))
  {
    var t := "$1" + rest;
    assert t[1] == '1';
    assert DigitRunEnd(t, 2) == 2;
    assert t[1..2] == "1";
    assert DigitsValue("1") == 1 by {
      assert "1"[..0] == [];
    }
  }

  /** "\$1" is a literal "$1": the escape keeps the digit from forming a
      reference. */
  lemma EscapedDollarIsLiteral(groups: Groups)
    ensures Substitute("\\$1", groups) == Success("$1")
  {
    var t := "\\$1";
    assert SubstFrom(t, 2, groups) == Success("1") by {
      assert t[2] == '1';
      assert SubstFrom(t, 3, groups) == Success([]);
      assert [t[2]] + [] == "1";
    }
    assert "$" + "1" == "$1";
  }

  /** A reference too long for an int throws. */
  lemma HugeReferenceThrows(groups: Groups)
    ensures Substitute("$9999999999", groups).Failure?
  {
    var t := "$9999999999";
    var digits := t[1..|t|];
    assert forall m :: 1 <= m < |t| ==> IsDigit(t[m]);
    assert DigitRunEnd(t, 1) == |t|;
    assert |digits| == 10 && digits[0] == '9';
    assert DigitsValue(digits) > INT_MAX by {
      DigitsValueBound(digits);
    }
  }

  /** Ten digits starting with 9 already exceed the largest int. */
  lemma DigitsValueBound(digits: string)
    requires |digits| == 10 && forall m :: 0 <= m < |digits| ==> IsDigit(digits[m])
    requires digits[0] == '9'
    ensures DigitsValue(digits) >= 9_000_000_000
  {
    var p9 := digits[..1];
    assert DigitsValue(p9) == 9 by {
      assert p9[..0] == [];
    }
    LeadingValue(digits, 1);
    LeadingValue(digits, 2);
    LeadingValue(digits, 3);
    LeadingValue(digits, 4);
    LeadingValue(digits, 5);
    LeadingValue(digits, 6);
    LeadingValue(digits, 7);
    LeadingValue(digits, 8);
    LeadingValue(digits, 9);
    assert digits[..10] == digits;
  }

  /** Appending a digit multiplies the value so far by ten, at least. */
  lemma LeadingValue(digits: string, k: nat)
    requires 1 <= k < |digits| && forall m :: 0 <= m < |digits| ==> IsDigit(digits[m])
    ensures DigitsValue(digits[..k + 1]) >= DigitsValue(digits[..k]) * 10
  {
    assert digits[..k + 1][..k] == digits[..k];
  }

  // ---------------------------------------------------------------------------
  // '&' conversion of patterns and titles

  /** The source's rewrite of a regular notification pattern: "&r" is
      deleted, "\&" becomes '&', then every '&' becomes '§'. */
  function ConvertRegexPatternAsWritten(pattern: string): (r: string)
    ensures '&' !in r
  {
    var noReset := ReplaceAll(pattern, "&r", "");
    var unescaped := ReplaceAll(noReset, "\\&", "&");
    ReplaceCharRemovesIt(unescaped, '&', "§");
    ReplaceAll(unescaped, "&", "§")
  }

  /** The source's rewrite of a title: "\&" becomes '&', then every '&'
      becomes '§'. */
  function ConvertTitleAsWritten(title: string): (r: string)
    ensures '&' !in r
  {
    var unescaped := ReplaceAll(title, "\\&", "&");
    ReplaceCharRemovesIt(unescaped, '&', "§");
    ReplaceAll(unescaped, "&", "§")
  }

  /** A text without 'r' holds no reset code to delete. */
  lemma NoResetCode(s: string)
    requires 'r' !in s
    ensures ReplaceAll(s, "&r", "") == s
  {
    RT.ReplaceMissingChar(s, "&r", "", 1);
  }

  lemma UnescapeEscaped()
    ensures ReplaceAll("\\&", "\\&", "&") == "&"
  {
    assert "\\&"[2..] == [];
  }

  lemma UnescapeBare()
    ensures ReplaceAll("&", "\\&", "&") == "&"
  {
    ReplaceAbsent("&", "\\&", "&");
  }

  lemma CodeBare()
    ensures ReplaceAll("&", "&", "§") == "§"
  {
    assert "&"[1..] == [];
  }

  /** The source's rewrites turn an escaped ampersand into the same
      formatting code as a bare one: the escape has no effect. */
  lemma EscapeIsLost()
    ensures ConvertTitleAsWritten("\\&") == ConvertTitleAsWritten("&") == "§"
    ensures ConvertRegexPatternAsWritten("\\&") == ConvertRegexPatternAsWritten("&") == "§"
  {
    NoResetCode("\\&");
    NoResetCode("&");
    UnescapeEscaped();
    UnescapeBare();
    CodeBare();
  }

  /** The pattern "\&a": the source's rewrite gives the colour code "§a",
      the corrected one the literal "&a". */
  lemma EscapedPatternRewrites()
    ensures ConvertRegexPatternAsWritten("\\&a") == "§a"
    ensures ConvertRegexPattern("\\&a") == "&a"
  {
    NoResetCode("\\&a");
    assert "\\&a"[2..] == "a" && "a"[1..] == [] && "&a"[1..] == "a";
    assert ReplaceAll("a", "\\&", "&") == "a";
    assert ReplaceAll("\\&a", "\\&", "&") == "&a";
    assert ReplaceAll("a", "&", "§") == "a";
    assert ReplaceAll("&a", "&", "§") == "§a";
    assert EscapeAmpersands("a") == "a";
  }

  /** A backslash-escaped ampersand becomes a literal '&'; any other '&'
      becomes '§'. */
  function EscapeAmpersands(s: string): (r: string)
    ensures '\\' !in s ==> '&' !in r
    decreases |s|
  {
    if s == [] then []
    else if "\\&" <= s then
      assert s[0] == '\\' && s[0] in s;
      "&" + EscapeAmpersands(s[2..])
    else if s[0] == '&' then "§" + EscapeAmpersands(s[1..])
    else [s[0]] + EscapeAmpersands(s[1..])
  }

  /** A character in neither the text nor the replacement is not in the
      result. */
  lemma {:induction false} ReplaceKeepsMissing(s: string, pat: string, rep: string, c: char)
    requires |pat| > 0 && c !in s && c !in rep
    ensures c !in ReplaceAll(s, pat, rep)
    decreases |s|
  {
    if |s| > 0 {
      if pat <= s {
        assert forall i :: 0 <= i < |s| - |pat| ==> s[|pat|..][i] == s[i + |pat|];
        ReplaceKeepsMissing(s[|pat|..], pat, rep, c);
      } else {
        assert forall i :: 0 <= i < |s| - 1 ==> s[1..][i] == s[i + 1];
        ReplaceKeepsMissing(s[1..], pat, rep, c);
      }
    }
  }

  /** Without a backslash, honouring the escape changes nothing: every '&'
      becomes '§'. */
  lemma {:induction false} EscapeWithoutBackslash(s: string)
    requires '\\' !in s
    ensures EscapeAmpersands(s) == ReplaceAll(s, "&", "§")
    decreases |s|
  {
    if |s| > 0 {
      assert s[0] in s;
      assert forall i :: 0 <= i < |s| - 1 ==> s[1..][i] == s[i + 1];
      EscapeWithoutBackslash(s[1..]);
    }
  }

  /** The corrected rewrites agree with the source's whenever the text
      holds no backslash. */
  lemma AgreeWithoutBackslash(s: string)
    ensures '\\' !in s ==> EscapeAmpersands(s) == ConvertTitleAsWritten(s)
    ensures '\\' !in s ==> EscapeAmpersands(ReplaceAll(s, "&r", "")) == ConvertRegexPatternAsWritten(s)
  {
    if '\\' !in s {
      ReplaceAbsent(s, "\\&", "&");
      EscapeWithoutBackslash(s);
      var noReset := ReplaceAll(s, "&r", "");
      ReplaceKeepsMissing(s, "&r", "", '\\');
      ReplaceAbsent(noReset, "\\&", "&");
      EscapeWithoutBackslash(noReset);
    }
  }

  /** The pattern rewrite with "\&" kept as a literal '&'; a pattern with
      no backslash is rewritten as the source does. */
  function ConvertRegexPattern(pattern: string): (r: string)
    ensures '\\' !in pattern ==> r == ConvertRegexPatternAsWritten(pattern) && '&' !in r
  {
    AgreeWithoutBackslash(pattern);
    EscapeAmpersands(ReplaceAll(pattern, "&r", ""))
  }

  /** The title rewrite with "\&" kept as a literal '&'; a title with no
      backslash is rewritten as the source does. */
  function ConvertTitle(title: string): (r: string)
    ensures '\\' !in title ==> r == ConvertTitleAsWritten(title) && '&' !in r
  {
    AgreeWithoutBackslash(title);
    EscapeAmpersands(title)
  }

  /** With the escape honoured, "\&" is a literal ampersand and "&" a
      code. */
  lemma EscapeIsKept()
    ensures ConvertTitle("\\&") == ConvertRegexPattern("\\&") == "&"
    ensures ConvertTitle("&") == ConvertRegexPattern("&") == "§"
  {
    NoResetCode("\\&");
    NoResetCode("&");
    assert "\\&"[2..] == [];
    assert "&"[1..] == [];
  }

  /** With the escape honoured, an escaped ampersand anywhere after a
      backslash-free prefix comes out as a literal '&' between the
      rewrites of what surrounds it. */
  lemma {:induction false} EscapeKeepsLiteral(a: string, b: string)
    requires '\\' !in a
    ensures EscapeAmpersands(a + "\\&" + b) == EscapeAmpersands(a) + "&" + EscapeAmpersands(b)
    decreases |a|
  {
    var s := a + "\\&" + b;
    if a == [] {
      assert s == "\\&" + b && "\\&" <= s && s[2..] == b;
      assert EscapeAmpersands(s) == "&" + EscapeAmpersands(b);
      assert EscapeAmpersands(a) + "&" == "&";
    } else {
      assert s[0] == a[0] && a[0] in a;
      assert s[1..] == a[1..] + "\\&" + b;
      assert forall c :: c in a[1..] ==> c in a;
      EscapeKeepsLiteral(a[1..], b);
      EscapeUnescapedHead(s);
      EscapeUnescapedHead(a);
      var h := if a[0] == '&' then "§" else [a[0]];
      assert EscapeAmpersands(s) == h + (EscapeAmpersands(a[1..]) + "&" + EscapeAmpersands(b));
      assert EscapeAmpersands(a) == h + EscapeAmpersands(a[1..]);
      ConcatRegroup(h, EscapeAmpersands(a[1..]) + "&", EscapeAmpersands(b));
      ConcatRegroup(h, EscapeAmpersands(a[1..]), "&");
    }
  }

  /** A first character other than a backslash is rewritten on its own. */
  lemma EscapeUnescapedHead(s: string)
    requires s != [] && s[0] != '\\'
    ensures EscapeAmpersands(s) == (if s[0] == '&' then "§" else [s[0]]) + EscapeAmpersands(s[1..])
  {
    assert !("\\&" <= s);
  }

  /** The corrected pattern rewrite agrees with the regex tester's, which
      sets escaped ampersands aside behind a placeholder, on every pattern
      that cannot contain the placeholder. */
  lemma ConvertAgreesWithTester(pattern: string)
    requires '{' !in pattern
    ensures ConvertRegexPattern(pattern) == RT.ConvertPattern(pattern)
  {
    var noReset := ReplaceAll(pattern, "&r", "");
    RT.ReplaceKeepsAbsent(pattern, "&r", "", '{');
    TesterSteps(noReset);
  }

  /** The placeholder passes the '&' step untouched. */
  lemma PlaceholderHasNoAmpersand()
    ensures '&' !in RT.LITERAL_AMP
    ensures RT.LITERAL_AMP[0] == '{'
  {
  }

  /** The tester's last three replacements act like `EscapeAmpersands`. */
  lemma {:induction false} TesterSteps(s: string)
    requires '{' !in s
    ensures ReplaceAll(ReplaceAll(ReplaceAll(s, "\\&", RT.LITERAL_AMP), "&", "§"), RT.LITERAL_AMP, "&")
      == EscapeAmpersands(s)
    decreases |s|
  {
    var lit := RT.LITERAL_AMP;
    if s != [] {
      PlaceholderHasNoAmpersand();
      if "\\&" <= s {
        var rest := ReplaceAll(s[2..], "\\&", lit);
        assert ReplaceAll(s, "\\&", lit) == lit + rest;
        assert ReplaceAll(lit + rest, "&", "§") == lit + ReplaceAll(rest, "&", "§") by {
          ReplaceCharDistributes(lit, rest, '&', "§");
          ReplaceAbsent(lit, "&", "§");
        }
        var coded := ReplaceAll(rest, "&", "§");
        assert lit <= lit + coded;
        assert (lit + coded)[|lit|..] == coded;
        assert ReplaceAll(lit + coded, lit, "&") == "&" + ReplaceAll(coded, lit, "&");
        assert '{' !in s[2..] by {
          assert forall k :: 0 <= k < |s[2..]| ==> s[2..][k] == s[k + 2];
        }
        TesterSteps(s[2..]);
      } else {
        var rest := ReplaceAll(s[1..], "\\&", lit);
        assert ReplaceAll(s, "\\&", lit) == [s[0]] + rest;
        var head := ReplaceAll([s[0]], "&", "§");
        assert ReplaceAll([s[0]] + rest, "&", "§") == head + ReplaceAll(rest, "&", "§") by {
          ReplaceCharDistributes([s[0]], rest, '&', "§");
        }
        assert [s[0]][1..] == [];
        assert head == (if s[0] == '&' then "§" else [s[0]]) by {
          if s[0] != '&' {
            assert !("&" <= [s[0]]);
          }
        }
        var coded := ReplaceAll(rest, "&", "§");
        assert s[0] in s;
        assert |head| == 1 && head[0] != '{';
        assert !(lit <= head + coded);
        assert (head + coded)[1..] == coded;
        assert ReplaceAll(head + coded, lit, "&") == head + ReplaceAll(coded, lit, "&");
        assert '{' !in s[1..] by {
          assert forall k :: 0 <= k < |s[1..]| ==> s[1..][k] == s[k + 1];
        }
        TesterSteps(s[1..]);
      }
    }
  }

  // ---------------------------------------------------------------------------
  // refreshCache

  /** A notification as cached: the unit and the pattern it is matched with
      (the converted pattern for a regular expression, the text otherwise).

      The pipeline below takes a flag `corrected`: `false` is the source,
      with the rewrites of lines 111 and 177 and `toLegacyString` as written;
      `true` is the corrected program, which keeps "\&" literal and writes
      the formatting again after a colour code. */
  datatype Cached = Cached(unit: NotificationUnit, pattern: string)

  /** `cachedVersion` (-1 before the first read) and `cachedNotifications`. */
  datatype Cache = Cache(version: int, notifications: seq<Cached>)

  const INITIAL: Cache := Cache(-1, [])

  /** The pattern a unit is matched with. */
  function MatchPattern(u: NotificationUnit, corrected: bool): string {
    if !u.regex then u.pattern
    else if corrected then ConvertRegexPattern(u.pattern)
    else ConvertRegexPatternAsWritten(u.pattern)
  }

  /** The title as shown, after any group substitution. */
  function TitleText(t: string, corrected: bool): string {
    if corrected then ConvertTitle(t) else ConvertTitleAsWritten(t)
  }

  /** The legacy text regular expressions are matched against. */
  function LegacyText(message: seq<TU.StyledChar>, corrected: bool): string {
    if corrected then TU.ToLegacyString(message) else TU.ToLegacyStringAsWritten(message)
  }

  /** A unit is cached when enabled with a non-empty pattern and, for a
      regular expression, when the converted pattern is safe and compiles. */
  predicate Kept(u: NotificationUnit, compiles: string -> bool, corrected: bool) {
    && u.enabled && u.pattern != []
    && (u.regex ==> Safe(MatchPattern(u, corrected)) && compiles(MatchPattern(u, corrected)))
  }

  /** The loop of `refreshCache` over the decoded units. */
  function BuildCache(units: seq<NotificationUnit>, compiles: string -> bool, corrected: bool): (r: seq<Cached>)
    ensures |r| <= |units|
    ensures forall c :: c in r ==> c.unit in units && Kept(c.unit, compiles, corrected) && c.pattern == MatchPattern(c.unit, corrected)
    ensures forall u :: u in units ==> (Cached(u, MatchPattern(u, corrected)) in r <==> Kept(u, compiles, corrected))
  {
    if units == [] then []
    else
      var rest := BuildCache(units[1..], compiles, corrected);
      if Kept(units[0], compiles, corrected) then [Cached(units[0], MatchPattern(units[0], corrected))] + rest else rest
  }

  /** A regular notification with the pattern "\&a" is cached by the source
      with the pattern "§a", a colour code; the corrected rewrite caches the
      literal "&a". */
  lemma CachedEscapedPattern(u: NotificationUnit, compiles: string -> bool)
    requires u.enabled && u.regex && u.pattern == "\\&a"
    requires compiles("§a") && compiles("&a")
    ensures BuildCache([u], compiles, false) == [Cached(u, "§a")]
    ensures BuildCache([u], compiles, true) == [Cached(u, "&a")]
  {
    EscapedPatternRewrites();
    assert Safe("§a") && Safe("&a") by {
      assert !HasGroup("§a", false) && !HasGroup("&a", false);
      assert !HasGroup("§a", true) && !HasGroup("&a", true);
    }
  }

  /** Building the cache keeps the units' order: it distributes over
      concatenation. */
  lemma {:induction false} BuildCacheConcat(a: seq<NotificationUnit>, b: seq<NotificationUnit>,
                                            compiles: string -> bool, corrected: bool)
    ensures BuildCache(a + b, compiles, corrected) == BuildCache(a, compiles, corrected) + BuildCache(b, compiles, corrected)
    decreases |a|
  {
    if a == [] {
      assert a + b == b;
    } else {
      assert (a + b)[0] == a[0] && (a + b)[1..] == a[1..] + b;
      BuildCacheConcat(a[1..], b, compiles, corrected);
      var head := if Kept(a[0], compiles, corrected) then [Cached(a[0], MatchPattern(a[0], corrected))] else [];
      var tail := BuildCache(a[1..], compiles, corrected);
      var second := BuildCache(b, compiles, corrected);
      assert BuildCache(a + b, compiles, corrected) == head + (tail + second);
      assert BuildCache(a, compiles, corrected) == head + tail;
      ConcatRegroup(head, tail, second);
    }
  }

  /** `refreshCache`: a no-op while the config version is unchanged; an empty
      list empties the cache; a list that fails to decode throws after the
      version is recorded, keeping the old notifications. */
  function RefreshCache(c: Cache, p: CP.Provider, compiles: string -> bool, corrected: bool): (r: (Cache, Option<string>))
    ensures c.version == p.version ==> r == (c, None)
    ensures c.version != p.version ==> r.0.version == p.version
    ensures c.version != p.version && CP.GetList(p, NOTIFICATIONS_LIST) == [] ==> r == (Cache(p.version, []), None)
    ensures c.version != p.version && CP.GetList(p, NOTIFICATIONS_LIST) != [] ==>
      var decoded := DecodeAll(FromJson(CP.GetList(p, NOTIFICATIONS_LIST)), NotificationOf);
      && (decoded.Success? ==> r == (Cache(p.version, BuildCache(decoded.value, compiles, corrected)), None))
      && (decoded.Failure? ==> r.0.notifications == c.notifications && r.1.Some?)
  {
    if c.version == p.version then (c, None)
    else
      var raw := CP.GetList(p, NOTIFICATIONS_LIST);
      if raw == [] then (Cache(p.version, []), None)
      else
        match DecodeAll(FromJson(raw), NotificationOf)
        case Failure(e) => (Cache(p.version, c.notifications), Some(e))
        case Success(units) => (Cache(p.version, BuildCache(units, compiles, corrected)), None)
  }

  /** A refresh right after a refresh changes nothing. */
  lemma RefreshSettles(c: Cache, p: CP.Provider, compiles: string -> bool, corrected: bool)
    ensures var once := RefreshCache(c, p, compiles, corrected).0;
      RefreshCache(once, p, compiles, corrected) == (once, None)
  {
  }

  // ---------------------------------------------------------------------------
  // checkMessage

  /** What a matching notification does. `SendText` goes through
      `MessageUtils.sendToPublicChat`. */
  datatype Action = PlaySound(sound: string) | ShowTitle(title: string) | SendText(text: string)

  /** The regular-expression search: the groups of the first match, if any. */
  type Finder = (string, string) -> Option<Groups>

  /** Whether a notification matches, and with which groups: a regular
      expression is searched for in the legacy text, a plain pattern in the
      plain text. */
  function MatchOf(n: Cached, plain: string, legacy: string, find: Finder): Option<Groups> {
    if n.unit.regex then find(n.pattern, legacy)
    else if Contains(plain, n.unit.pattern) then Some([])
    else None
  }

  /** An action template with capture groups substituted, for regular
      expressions only. */
  function Expand(u: NotificationUnit, template: string, groups: Groups): Result<string> {
    if u.regex then Substitute(template, groups) else Success(template)
  }

  /** The sound part: a failed substitution or an unknown sound is caught and
      logged, so it only costs the sound. */
  function SoundActions(u: NotificationUnit, groups: Groups, soundExists: string -> bool): (r: seq<Action>)
    ensures |r| <= 1
    ensures r != [] ==> r[0].PlaySound? && u.soundEnabled && u.sound != [] && soundExists(r[0].sound)
    ensures !u.regex && u.soundEnabled && u.sound != [] ==> r == (if soundExists(u.sound) then [PlaySound(u.sound)] else [])
    ensures u.regex && Substitute(u.sound, groups).Failure? ==> r == []
    ensures u.regex && u.soundEnabled && u.sound != [] && Substitute(u.sound, groups).Success? ==>
      r == (if soundExists(Substitute(u.sound, groups).value) then [PlaySound(Substitute(u.sound, groups).value)] else [])
  {
    if u.soundEnabled && u.sound != [] then
      match Expand(u, u.sound, groups)
      case Success(s) => if soundExists(s) then [PlaySound(s)] else []
      case Failure(_) => []
    else []
  }

  /** The actions of one matching notification, in the order sound, title,
      command; a failed substitution in the title or the command throws out
      of `checkMessage`, after the actions already taken. */
  function Fire(u: NotificationUnit, groups: Groups, soundExists: string -> bool, corrected: bool)
    : (r: (seq<Action>, Option<string>))
    ensures forall a :: a in r.0 && a.PlaySound? ==> u.soundEnabled && u.sound != [] && soundExists(a.sound)
    ensures forall a :: a in r.0 && a.ShowTitle? ==> u.titleEnabled && u.title != []
    ensures forall a :: a in r.0 && a.SendText? ==> u.commandEnabled && u.command != []
    ensures r.1.Some? ==> u.regex
  {
    var sound := SoundActions(u, groups, soundExists);
    var title :=
      if u.titleEnabled && u.title != [] then
        match Expand(u, u.title, groups)
        case Success(t) => Success([ShowTitle(TitleText(t, corrected))])
        case Failure(e) => Failure(e)
      else Success([]);
    match title
    case Failure(e) => (sound, Some(e))
    case Success(shown) =>
      if u.commandEnabled && u.command != [] then
        match Expand(u, u.command, groups)
        case Success(cmd) => (sound + shown + [SendText(cmd)], None)
        case Failure(e) => (sound + shown, Some(e))
      else (sound + shown, None)
  }

  /** A plain-text notification does exactly what its flags say, with its
      strings as typed; the title's ampersands are converted by the source's
      rewrite, so the title holds no '&' at all. */
  lemma PlainFire(u: NotificationUnit, soundExists: string -> bool)
    requires !u.regex
    ensures Fire(u, [], soundExists, false) == (
      (if u.soundEnabled && u.sound != [] && soundExists(u.sound) then [PlaySound(u.sound)] else [])
      + (if u.titleEnabled && u.title != [] then [ShowTitle(ConvertTitleAsWritten(u.title))] else [])
      + (if u.commandEnabled && u.command != [] then [SendText(u.command)] else []),
      None)
    ensures forall a :: a in Fire(u, [], soundExists, false).0 && a.ShowTitle? ==> '&' !in a.title
  {
    var sound := SoundActions(u, [], soundExists);
    var shown := if u.titleEnabled && u.title != [] then [ShowTitle(ConvertTitleAsWritten(u.title))] else [];
    if !(u.commandEnabled && u.command != []) {
      assert sound + shown + [] == sound + shown;
    }
  }

  /** The loop of `checkMessage`: every cached notification that matches
      fires, in order, until one throws. */
  function FireAll(ns: seq<Cached>, plain: string, legacy: string, find: Finder, soundExists: string -> bool,
                   corrected: bool): (r: (seq<Action>, Option<string>))
    ensures (forall k :: 0 <= k < |ns| ==> MatchOf(ns[k], plain, legacy, find).None?) ==> r == ([], None)
    decreases |ns|
  {
    if ns == [] then ([], None)
    else
      var rest := FireAll(ns[1..], plain, legacy, find, soundExists, corrected);
      match MatchOf(ns[0], plain, legacy, find)
      case None => rest
      case Some(groups) =>
        var (acts, err) := Fire(ns[0].unit, groups, soundExists, corrected);
        if err.Some? then (acts, err) else (acts + rest.0, rest.1)
  }

  /** Firing runs through the list in order: a match does not stop the
      notifications after it, only a throw does. */
  lemma {:induction false} FireAllConcat(a: seq<Cached>, b: seq<Cached>, plain: string, legacy: string,
                                         find: Finder, soundExists: string -> bool, corrected: bool)
    ensures var first := FireAll(a, plain, legacy, find, soundExists, corrected);
      var second := FireAll(b, plain, legacy, find, soundExists, corrected);
      FireAll(a + b, plain, legacy, find, soundExists, corrected)
        == if first.1.Some? then first else (first.0 + second.0, second.1)
    decreases |a|
  {
    if a == [] {
      assert a + b == b;
      var second := FireAll(b, plain, legacy, find, soundExists, corrected);
      assert [] + second.0 == second.0;
    } else {
      assert (a + b)[0] == a[0] && (a + b)[1..] == a[1..] + b;
      FireAllConcat(a[1..], b, plain, legacy, find, soundExists, corrected);
      var tail := FireAll(a[1..], plain, legacy, find, soundExists, corrected);
      var second := FireAll(b, plain, legacy, find, soundExists, corrected);
      match MatchOf(a[0], plain, legacy, find)
      case None =>
        assert FireAll(a, plain, legacy, find, soundExists, corrected) == tail;
        assert FireAll(a + b, plain, legacy, find, soundExists, corrected)
          == FireAll(a[1..] + b, plain, legacy, find, soundExists, corrected);
      case Some(groups) =>
        var fired := Fire(a[0].unit, groups, soundExists, corrected);
        var joined := FireAll(a[1..] + b, plain, legacy, find, soundExists, corrected);
        assert FireAll(a, plain, legacy, find, soundExists, corrected)
          == if fired.1.Some? then fired else (fired.0 + tail.0, tail.1);
        assert FireAll(a + b, plain, legacy, find, soundExists, corrected)
          == if fired.1.Some? then fired else (fired.0 + joined.0, joined.1);
        if fired.1.None? && tail.1.None? {
          ConcatRegroup(fired.0, tail.0, second.0);
        }
    }
  }

  /** The result of `checkMessage` on a message given as its styled
      characters: the cache after the refresh, the actions taken, and the
      exception that ended the call, if any. */
  datatype Outcome = Outcome(cache: Cache, actions: seq<Action>, error: Option<string>)

  /** Whether `checkMessage` gets past its guards. */
  predicate Active(p: CP.Provider, playerPresent: bool) {
    playerPresent && CP.GetBoolean(p, NOTIFICATIONS_ENABLED, false)
  }

  /** `checkMessage`. Nothing happens without a player or with the feature
      disabled; the cache is refreshed; regular expressions are matched
      against the legacy text, plain patterns against the plain text. */
  function CheckMessage(c: Cache, p: CP.Provider, playerPresent: bool, message: seq<TU.StyledChar>,
                        compiles: string -> bool, find: Finder, soundExists: string -> bool, corrected: bool)
    : (r: Outcome)
    ensures !Active(p, playerPresent) ==> r == Outcome(c, [], None)
    ensures Active(p, playerPresent) ==> r.cache == RefreshCache(c, p, compiles, corrected).0
    ensures Active(p, playerPresent) && RefreshCache(c, p, compiles, corrected).1.Some? ==>
      r.actions == [] && r.error == RefreshCache(c, p, compiles, corrected).1
    ensures Active(p, playerPresent) && RefreshCache(c, p, compiles, corrected).1.None? ==>
      (r.actions, r.error)
        == FireAll(r.cache.notifications, TU.Chars(message), LegacyText(message, corrected), find, soundExists, corrected)
  {
    if !Active(p, playerPresent) then Outcome(c, [], None)
    else
      var (refreshed, err) := RefreshCache(c, p, compiles, corrected);
      if err.Some? then Outcome(refreshed, [], err)
      else if refreshed.notifications == [] then Outcome(refreshed, [], None)
      else
        var (actions, thrown) :=
          FireAll(refreshed.notifications, TU.Chars(message), LegacyText(message, corrected), find, soundExists, corrected);
        Outcome(refreshed, actions, thrown)
  }

  /** Every action `checkMessage` takes comes from a cached notification
      that matches the message, and a second message under the same config
      sees the cache the first one left. */
  lemma CheckMessageActsOnMatches(c: Cache, p: CP.Provider, playerPresent: bool, message: seq<TU.StyledChar>,
                                  compiles: string -> bool, find: Finder, soundExists: string -> bool, corrected: bool)
    ensures var r := CheckMessage(c, p, playerPresent, message, compiles, find, soundExists, corrected);
      var legacy := LegacyText(message, corrected);
      r.actions != [] ==>
        exists k :: 0 <= k < |r.cache.notifications| && MatchOf(r.cache.notifications[k], TU.Chars(message), legacy, find).Some?
    ensures var r := CheckMessage(c, p, playerPresent, message, compiles, find, soundExists, corrected);
      CheckMessage(r.cache, p, playerPresent, message, compiles, find, soundExists, corrected).cache == r.cache
  {
  }
}
