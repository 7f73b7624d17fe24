/** The browser regex tester that ships next to the mod: it previews a chat
    line's `§` codes as styled spans, and it tests a notification pattern the
    way the mod rewrites it. The page's DOM is left out; the regular
    expression engine is a parameter. */
module RegexTester {
  import opened Wrappers
  import opened JavaText

  const SECTION: char := '§'

  /** The `colorCodes` table. */
  function ColorClass(code: char): (r: Option<string>)
    ensures r.Some? ==> StartsWith(r.value, CLASS_PREFIX)
  {
    match code
    case '0' => Some("color-black")
    case '1' => Some("color-dark-blue")
    case '2' => Some("color-dark-green")
    case '3' => Some("color-dark-aqua")
    case '4' => Some("color-dark-red")
    case '5' => Some("color-dark-purple")
    case '6' => Some("color-gold")
    case '7' => Some("color-gray")
    case '8' => Some("color-dark-gray")
    case '9' => Some("color-blue")
    case 'a' => Some("color-green")
    case 'b' => Some("color-aqua")
    case 'c' => Some("color-red")
    case 'd' => Some("color-light-purple")
    case 'e' => Some("color-yellow")
    case 'f' => Some("color-white")
    case _ => None
  }

  /** The `formattingCodes` table. Its class names carry the same `color-`
      prefix as the colours. */
  function FormatClass(code: char): (r: Option<string>)
    ensures r.Some? ==> StartsWith(r.value, CLASS_PREFIX)
  {
    match code
    case 'k' => Some("color-obfuscated")
    case 'l' => Some("color-bold")
    case 'm' => Some("color-strikethrough")
    case 'n' => Some("color-underline")
    case 'o' => Some("color-italic")
    case _ => None
  }

  const CLASS_PREFIX: string := "color-"

  /** `toLowerCase` of one character, for the characters whose lower case is
      a code: the ASCII capitals and the Kelvin sign, which lowers to 'k'. */
  function LowerCode(c: char): (r: char)
    ensures 'A' <= c <= 'Z' ==> r as int == c as int + 32
    ensures !('A' <= c <= 'Z') && c != '\U{212A}' ==> r == c
  {
    if c == '\U{212A}' then 'k' else LowerChar(c)
  }

  /** `currentClasses.filter(cls => !cls.startsWith('color-'))`. */
  function DropPrefixed(classes: seq<string>): (r: seq<string>)
    ensures forall c :: c in r <==> c in classes && !StartsWith(c, CLASS_PREFIX)
    ensures (forall i :: 0 <= i < |classes| ==> StartsWith(classes[i], CLASS_PREFIX)) ==> r == []
  {
    if classes == [] then []
    else if StartsWith(classes[0], CLASS_PREFIX) then DropPrefixed(classes[1..])
    else [classes[0]] + DropPrefixed(classes[1..])
  }

  /** The classes the tables can put in force: all of them carry the prefix,
      none twice. */
  predicate WellFormed(classes: seq<string>) {
    && (forall i :: 0 <= i < |classes| ==> StartsWith(classes[i], CLASS_PREFIX))
    && (forall i, j :: 0 <= i < j < |classes| ==> classes[i] != classes[j])
  }

  /** The effect of one `§` code, already lower-cased, on the classes in force. */
  function ApplyCode(classes: seq<string>, code: char): (r: seq<string>)
    requires WellFormed(classes)
    ensures WellFormed(r)
    ensures code == 'r' ==> r == []
    ensures ColorClass(code).Some? ==> r == [ColorClass(code).value]
    ensures FormatClass(code).Some? ==> forall c :: c in r <==> c in classes || c == FormatClass(code).value
    ensures code != 'r' && ColorClass(code).None? && FormatClass(code).None? ==> r == classes
  {
    if code == 'r' then []
    else if ColorClass(code).Some? then DropPrefixed(classes) + [ColorClass(code).value]
    else if FormatClass(code).Some? then
      var name := FormatClass(code).value;
      if name in classes then classes else classes + [name]
    else classes
  }

  /** A colour code in the preview ends every formatting code before it:
      the formatting class names share the prefix the filter removes. */
  lemma ColorCodeClearsFormatting(classes: seq<string>, color: char, format: char)
    requires WellFormed(classes)
    requires ColorClass(color).Some? && FormatClass(format).Some?
    ensures ApplyCode(ApplyCode(classes, format), color) == [ColorClass(color).value]
  {
  }

  /** A visible character with the classes in force when it was read; the
      span the page wraps it in is present exactly when `classes` is non-empty. */
  datatype Piece = Piece(classes: seq<string>, ch: char)

  function PieceChars(ps: seq<Piece>): (r: string)
    ensures |r| == |ps|
    ensures forall i :: 0 <= i < |ps| ==> r[i] == ps[i].ch
  {
    if ps == [] then [] else [ps[0].ch] + PieceChars(ps[1..])
  }

  /** The loop of `parseMinecraftColors` from `classes`: a `§` with a
      character after it is a code and shows nothing; any other character
      shows once, in order. */
  function ParseFrom(text: string, classes: seq<string>): (r: seq<Piece>)
    requires WellFormed(classes)
    ensures |r| <= |text|
    ensures forall i :: 0 <= i < |r| ==> WellFormed(r[i].classes)
    ensures SECTION !in text ==> PieceChars(r) == text && forall i :: 0 <= i < |r| ==> r[i].classes == classes
    decreases |text|
  {
    if text == [] then []
    else if text[0] == SECTION && 1 < |text| then ParseFrom(text[2..], ApplyCode(classes, LowerCode(text[1])))
    else
      var rest := ParseFrom(text[1..], classes);
      assert PieceChars([Piece(classes, text[0])] + rest) == [text[0]] + PieceChars(rest);
      [Piece(classes, text[0])] + rest
  }

  function ParseMinecraftColors(text: string): seq<Piece> {
    ParseFrom(text, [])
  }

  /** Upper- and lower-case codes act alike. */
  lemma CodeCaseIgnored(c: char, rest: string, classes: seq<string>)
    requires 'A' <= c <= 'Z' && WellFormed(classes)
    ensures ParseFrom([SECTION, c] + rest, classes) == ParseFrom([SECTION, LowerChar(c)] + rest, classes)
  {
    var upper := [SECTION, c] + rest;
    var lower := [SECTION, LowerChar(c)] + rest;
    assert upper[0] == SECTION && upper[1] == c && upper[2..] == rest;
    assert lower[0] == SECTION && lower[1] == LowerChar(c) && lower[2..] == rest;
    assert LowerCode(LowerChar(c)) == LowerCode(c);
  }

  /** A `§` at the very end is shown as text. */
  lemma {:induction false} TrailingSectionShown(text: string, classes: seq<string>)
    requires WellFormed(classes) && SECTION !in text
    ensures PieceChars(ParseFrom(text + [SECTION], classes)) == text + [SECTION]
    decreases |text|
  {
    var t := text + [SECTION];
    if text == [] {
      assert t == [SECTION];
      assert ParseFrom(t, classes) == [Piece(classes, SECTION)] + ParseFrom([], classes);
    } else {
      assert t[0] == text[0] && text[0] != SECTION;
      assert t[1..] == text[1..] + [SECTION];
      TrailingSectionShown(text[1..], classes);
      assert ParseFrom(t, classes) == [Piece(classes, text[0])] + ParseFrom(t[1..], classes);
    }
  }

  // ---------------------------------------------------------------------------
  // testRegex

  /** The line terminators JavaScript's `.` does not match. */
  predicate IsLineTerminator(c: char) {
    c == '\n' || c == '\r' || c == '\U{2028}' || c == '\U{2029}'
  }

  /** `text.replace(/§./g, '')`: each `§` and the character after it go,
      unless that character is a line terminator. */
  function StripCodes(text: string): (r: string)
    ensures |r| <= |text|
    ensures text != [] && IsLineTerminator(text[0]) ==> r != [] && r[0] == text[0]
    ensures forall i :: 0 <= i < |r| - 1 && r[i] == SECTION ==> IsLineTerminator(r[i + 1])
    decreases |text|
  {
    if |text| >= 2 && text[0] == SECTION && !IsLineTerminator(text[1]) then StripCodes(text[2..])
    else if text == [] then []
    else [text[0]] + StripCodes(text[1..])
  }

  /** Stripping twice is stripping once. */
  lemma {:induction false} StripCodesIdempotent(text: string)
    ensures StripCodes(StripCodes(text)) == StripCodes(text)
    decreases |text|
  {
    var r := StripCodes(text);
    StripKeepsCleanText(r);
  }

  /** A text in which every `§` is last or followed by a line terminator has
      nothing to strip. */
  lemma {:induction false} StripKeepsCleanText(r: string)
    requires forall i :: 0 <= i < |r| - 1 && r[i] == SECTION ==> IsLineTerminator(r[i + 1])
    ensures StripCodes(r) == r
    decreases |r|
  {
    if r != [] {
      StripKeepsCleanText(r[1..]);
      assert [r[0]] + r[1..] == r;
    }
  }

  /** `pattern.match(/(?<!\\)&/)`: an '&' not preceded by a backslash. */
  predicate HasUnescapedAmpersand(pattern: string) {
    exists i :: 0 <= i < |pattern| && pattern[i] == '&' && (i == 0 || pattern[i - 1] != '\\')
  }

  /** The text the pattern runs on: the `§`-coded text when the pattern asks
      for codes, otherwise the text with its codes stripped. */
  function TextToMatch(pattern: string, text: string): (r: string)
    ensures HasUnescapedAmpersand(pattern) ==> r == text
    ensures !HasUnescapedAmpersand(pattern) ==> r == StripCodes(text)
  {
    if HasUnescapedAmpersand(pattern) then text else StripCodes(text)
  }

  const LITERAL_AMP: string := "{{LITERAL_AMP}}"

  /** The pattern rewrite: "&r" goes, "\&" is set aside as a placeholder,
      every other '&' becomes '§', and the placeholders become '&'. */
  function ConvertPattern(pattern: string): string {
    var noReset := ReplaceAll(pattern, "&r", "");
    var guarded := ReplaceAll(noReset, "\\&", LITERAL_AMP);
    var coded := ReplaceAll(guarded, "&", "§");
    ReplaceAll(coded, LITERAL_AMP, "&")
  }

  /** A pattern with no backslash and no brace keeps no '&': each became `§`. */
  lemma ConvertedPatternHasNoAmpersand(pattern: string)
    requires '\\' !in pattern && '{' !in pattern
    ensures '&' !in ConvertPattern(pattern)
  {
    var noReset := ReplaceAll(pattern, "&r", "");
    ReplaceKeepsAbsent(pattern, "&r", "", '\\');
    ReplaceKeepsAbsent(pattern, "&r", "", '{');
    ReplaceAbsent(noReset, "\\&", LITERAL_AMP);
    var coded := ReplaceAll(noReset, "&", "§");
    ReplaceCharRemovesIt(noReset, '&', "§");
    ReplaceKeepsAbsent(noReset, "&", "§", '{');
    ReplaceAbsent(coded, LITERAL_AMP, "&");
  }

  /** A pattern with neither an '&' nor a brace is used as typed. */
  lemma PlainPatternUnchanged(pattern: string)
    requires '&' !in pattern && '{' !in pattern
    ensures ConvertPattern(pattern) == pattern
  {
    ReplaceAbsent(pattern, "&r", "");
    ReplaceMissingChar(pattern, "\\&", LITERAL_AMP, 1);
    ReplaceAbsent(pattern, "&", "§");
    ReplaceAbsent(pattern, LITERAL_AMP, "&");
  }

  /** Replacing never introduces a character found in neither the text nor
      the replacement. */
  lemma {:induction false} ReplaceKeepsAbsent(s: string, pat: string, rep: string, c: char)
    requires |pat| > 0 && c !in s && c !in rep
    ensures c !in ReplaceAll(s, pat, rep)
    decreases |s|
  {
    if |s| > 0 {
      if pat <= s {
        ReplaceKeepsAbsent(s[|pat|..], pat, rep, c);
      } else {
        ReplaceKeepsAbsent(s[1..], pat, rep, c);
      }
    }
  }

  /** A pattern with a character the text lacks never occurs in it. */
  lemma {:induction false} ReplaceMissingChar(s: string, pat: string, rep: string, k: nat)
    requires k < |pat| && pat[k] !in s
    ensures ReplaceAll(s, pat, rep) == s
    decreases |s|
  {
    if |s| > 0 {
      assert k < |s| ==> s[k] in s;
      assert !(pat <= s);
      ReplaceMissingChar(s[1..], pat, rep, k);
      assert [s[0]] + s[1..] == s;
    }
  }

  // ---------------------------------------------------------------------------
  // JavaScript trim

  /** White space and line terminators as `String.prototype.trim` sees them. */
  predicate IsJsSpace(c: char) {
    || c == '\t' || c == '\n' || c == '\U{000B}' || c == '\U{000C}' || c == '\r' || c == ' '
    || c == '\U{00A0}' || c == '\U{1680}' || ('\U{2000}' <= c <= '\U{200A}')
    || c == '\U{2028}' || c == '\U{2029}' || c == '\U{202F}' || c == '\U{205F}' || c == '\U{3000}' || c == '\U{FEFF}'
  }

  /** The first index at or after `i` holding a non-space character. */
  function FirstSolid(s: string, i: nat): (k: nat)
    requires i <= |s|
    ensures i <= k <= |s|
    ensures forall m :: i <= m < k ==> IsJsSpace(s[m])
    ensures k < |s| ==> !IsJsSpace(s[k])
    decreases |s| - i
  {
    if i < |s| && IsJsSpace(s[i]) then FirstSolid(s, i + 1) else i
  }

  /** One past the last index below `j`, and not below `lo`, holding a non-space character. */
  function LastSolid(s: string, lo: nat, j: nat): (k: nat)
    requires lo <= j <= |s|
    ensures lo <= k <= j
    ensures forall m :: k <= m < j ==> IsJsSpace(s[m])
    ensures k > lo ==> !IsJsSpace(s[k - 1])
  {
    if j > lo && IsJsSpace(s[j - 1]) then LastSolid(s, lo, j - 1) else j
  }

  /** `String.prototype.trim`. */
  function JsTrim(s: string): (r: string)
    ensures r != [] ==> !IsJsSpace(r[0]) && !IsJsSpace(r[|r| - 1])
    ensures r == [] <==> forall i :: 0 <= i < |s| ==> IsJsSpace(s[i])
  {
    var i := FirstSolid(s, 0);
    var j := LastSolid(s, i, |s|);
    s[i..j]
  }

  /** The outcome the page shows. */
  datatype Outcome =
    | NoPattern                      // "Please enter a regex pattern"
    | InvalidPattern                 // the RegExp constructor threw
    | NoMatch
    | Matched(groupsText: string)    // the capture-group listing

  /** One line of the capture-group listing; a group that did not take part
      prints as "undefined". */
  function GroupLine(i: nat, group: Option<string>): string {
    "$" + IntToString(i) + ": \"" + (if group.Some? then group.value else "undefined") + "\"\n"
  }

  function GroupsText(groups: seq<Option<string>>, from: nat): string
    requires from <= |groups|
    decreases |groups| - from
  {
    if from == |groups| then [] else GroupLine(from, groups[from]) + GroupsText(groups, from + 1)
  }

  /** `testRegex`. `compiles` says whether `new RegExp(p, 'i')` accepts a
      pattern and `exec` runs it on a text, giving group 0 and the capture
      groups on a match. */
  function TestRegex(patternInput: string, text: string, compiles: string -> bool,
                     exec: (string, string) -> Option<seq<Option<string>>>): (r: Outcome)
    ensures r == NoPattern <==> forall i :: 0 <= i < |patternInput| ==> IsJsSpace(patternInput[i])
    ensures r != NoPattern ==>
      var pattern := JsTrim(patternInput);
      (r == InvalidPattern <==> !compiles(ConvertPattern(pattern)))
      && (r.Matched? <==> compiles(ConvertPattern(pattern))
                          && exec(ConvertPattern(pattern), TextToMatch(pattern, text)).Some?)
  {
    var pattern := JsTrim(patternInput);
    if pattern == [] then NoPattern
    else
      var converted := ConvertPattern(pattern);
      if !compiles(converted) then InvalidPattern
      else
        match exec(converted, TextToMatch(pattern, text))
        case None => NoMatch
        case Some(groups) => Matched(JsTrim(GroupsText(groups, 0)))
  }
}
