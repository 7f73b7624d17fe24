/** Text helpers: joining chat components with line breaks, and rendering a
    styled component back into a legacy `§`-coded string. A component is
    modelled by its visual-order character sequence, each character with its
    resolved style. */
module TextUtils {
  import opened Wrappers

  /** The sixteen named chat colours, by their legacy code character. */
  type ColorCode = c: char | c in "0123456789abcdef" witness '0'

  /** A named colour serialises to a `ChatFormatting` name; an RGB colour
      serialises to `#rrggbb`, which names no formatting. */
  datatype TextColor = Named(code: ColorCode) | Hex(rgb: nat)

  /** The style fields that legacy codes can express, plus `events`, which
      stands for the remaining fields (click and hover events, insertion,
      font) that take part in equality but have no code. */
  datatype Style = Style(bold: bool, italic: bool, underlined: bool, strikethrough: bool,
                         obfuscated: bool, color: Option<TextColor>, events: nat)

  const EMPTY_STYLE: Style := Style(false, false, false, false, false, None, 0)

  datatype StyledChar = StyledChar(style: Style, ch: char)

  const SECTION: char := '§'

  /** The legacy code characters of the formatting codes. */
  const RESET_CODE: char := 'r'
  const BOLD_CODE: char := 'l'
  const ITALIC_CODE: char := 'o'
  const UNDERLINE_CODE: char := 'n'
  const STRIKETHROUGH_CODE: char := 'm'
  const OBFUSCATED_CODE: char := 'k'
  const FLAG_CODES: seq<char> := [BOLD_CODE, ITALIC_CODE, UNDERLINE_CODE, STRIKETHROUGH_CODE, OBFUSCATED_CODE]

  /** The plain text of a component (`getString`): every character whole. */
  function Chars(cs: seq<StyledChar>): (r: string)
    ensures |r| == |cs|
    ensures forall i :: 0 <= i < |cs| ==> r[i] == cs[i].ch
  {
    if cs == [] then [] else [cs[0].ch] + Chars(cs[1..])
  }

  /** `(char) codePoint`: a Java `char` keeps only the low 16 bits of a code
      point, so a character outside the Basic Multilingual Plane is written
      as another one (U+1F600 as U+F600). When those bits fall in the
      surrogate range Java writes a lone surrogate, which is no character
      here; the model then keeps the character whole. */
  function CharCast(c: char): (r: char)
    ensures c as int < 0x10000 ==> r == c
    ensures r != c ==> r as int == c as int % 0x10000
  {
    var low := c as int % 0x10000;
    if 0xD800 <= low < 0xE000 then c else low as char
  }

  /** Casting a second time changes nothing more. */
  lemma CastIdempotent(c: char)
    ensures CharCast(CharCast(c)) == CharCast(c)
  {
  }

  /** An emoji loses its plane: U+1F600 is written as U+F600. */
  lemma CastDropsPlane()
    ensures CharCast('\U{1F600}') == '\U{F600}'
  {
  }

  /** The characters `toLegacyString` writes for a component, each cast. */
  function WrittenChars(cs: seq<StyledChar>): (r: string)
    ensures |r| == |cs|
    ensures forall i :: 0 <= i < |cs| ==> r[i] == CharCast(cs[i].ch)
  {
    if cs == [] then [] else [CharCast(cs[0].ch)] + WrittenChars(cs[1..])
  }

  /** Text inside the Basic Multilingual Plane is written as itself. */
  lemma WrittenBmpIsPlain(cs: seq<StyledChar>)
    requires forall i :: 0 <= i < |cs| ==> cs[i].ch as int < 0x10000
    ensures WrittenChars(cs) == Chars(cs)
  {
  }

  // ---------------------------------------------------------------------------
  // joinComponents

  const NEWLINE: StyledChar := StyledChar(EMPTY_STYLE, '\n')

  /** `joinComponents`: the components one after another, a line break
      between each two consecutive ones and nowhere else. */
  function JoinComponents(texts: seq<seq<StyledChar>>): (r: seq<StyledChar>)
    ensures texts == [] ==> r == []
    ensures |texts| == 1 ==> r == texts[0]
  {
    if texts == [] then []
    else if |texts| == 1 then texts[0]
    else texts[0] + [NEWLINE] + JoinComponents(texts[1..])
  }

  predicate NoLineBreak(t: seq<StyledChar>) {
    forall i :: 0 <= i < |t| ==> t[i].ch != '\n'
  }

  /** Cutting a character sequence at every line break; the partner of
      `JoinComponents`. */
  function SplitLines(cs: seq<StyledChar>): (r: seq<seq<StyledChar>>)
    ensures |r| >= 1
  {
    if cs == [] then [[]]
    else if cs[0].ch == '\n' then [[]] + SplitLines(cs[1..])
    else
      var rest := SplitLines(cs[1..]);
      [[cs[0]] + rest[0]] + rest[1..]
  }

  lemma {:induction false} SplitLinesOfLine(t: seq<StyledChar>, rest: seq<StyledChar>)
    requires NoLineBreak(t)
    ensures SplitLines(t + [NEWLINE] + rest) == [t] + SplitLines(rest)
    ensures SplitLines(t) == [t]
    decreases |t|
  {
    if t == [] {
      assert [] + [NEWLINE] + rest == [NEWLINE] + rest;
      assert ([NEWLINE] + rest)[1..] == rest;
    } else {
      SplitLinesOfLine(t[1..], rest);
      assert (t + [NEWLINE] + rest)[1..] == t[1..] + [NEWLINE] + rest;
      assert [t[0]] + t[1..] == t;
    }
  }

  /** Components without line breaks of their own are recovered exactly by
      splitting the joined text at its line breaks. */
  lemma {:induction false} JoinThenSplit(texts: seq<seq<StyledChar>>)
    requires texts != []
    requires forall i :: 0 <= i < |texts| ==> NoLineBreak(texts[i])
    ensures SplitLines(JoinComponents(texts)) == texts
    decreases |texts|
  {
    if |texts| == 1 {
      SplitLinesOfLine(texts[0], []);
    } else {
      var tail := texts[1..];
      var joinedTail := JoinComponents(tail);
      assert JoinComponents(texts) == texts[0] + [NEWLINE] + joinedTail;
      JoinThenSplit(tail);
      SplitLinesOfLine(texts[0], joinedTail);
      assert [texts[0]] + tail == texts;
    }
  }

  /** The joined text holds the components' characters plus one line break
      per gap. */
  lemma {:induction false} JoinLength(texts: seq<seq<StyledChar>>)
    requires texts != []
    ensures |JoinComponents(texts)| == TotalLength(texts) + |texts| - 1
    decreases |texts|
  {
    if |texts| > 1 {
      JoinLength(texts[1..]);
    }
  }

  function TotalLength(texts: seq<seq<StyledChar>>): nat {
    if texts == [] then 0 else |texts[0]| + TotalLength(texts[1..])
  }

  // ---------------------------------------------------------------------------
  // toLegacyString

  /** A style change that turns a flag off, or drops or changes a colour,
      can only be expressed by a reset. */
  predicate FormattingRemoved(last: Style, style: Style) {
    || (last.bold && !style.bold)
    || (last.italic && !style.italic)
    || (last.underlined && !style.underlined)
    || (last.strikethrough && !style.strikethrough)
    || (last.obfuscated && !style.obfuscated)
    || (last.color.Some? && last.color != style.color)
  }

  /** The colour code is written: the colour is named, and it is new, changed
      or follows a reset. */
  predicate ColorWritten(last: Style, style: Style) {
    && style.color.Some? && style.color.value.Named?
    && (FormattingRemoved(last, style) || last.color.None? || style.color != last.color)
  }

  /** The flag codes written for `style`: every flag that is on and either
      was off before or must be repeated (`again`). */
  function FlagCodes(last: Style, style: Style, again: bool): (r: seq<char>)
    ensures forall x :: x in r ==> x in FLAG_CODES
    ensures BOLD_CODE in r <==> style.bold && (again || !last.bold)
    ensures ITALIC_CODE in r <==> style.italic && (again || !last.italic)
    ensures UNDERLINE_CODE in r <==> style.underlined && (again || !last.underlined)
    ensures STRIKETHROUGH_CODE in r <==> style.strikethrough && (again || !last.strikethrough)
    ensures OBFUSCATED_CODE in r <==> style.obfuscated && (again || !last.obfuscated)
  {
    FlagIf(style.bold && (again || !last.bold), BOLD_CODE)
    + FlagIf(style.italic && (again || !last.italic), ITALIC_CODE)
    + FlagIf(style.underlined && (again || !last.underlined), UNDERLINE_CODE)
    + FlagIf(style.strikethrough && (again || !last.strikethrough), STRIKETHROUGH_CODE)
    + FlagIf(style.obfuscated && (again || !last.obfuscated), OBFUSCATED_CODE)
  }

  /** A flag's code when its condition holds. */
  function FlagIf(on: bool, code: char): seq<char> {
    if on then [code] else []
  }

  function ResetCodes(last: Style, style: Style): seq<char> {
    if FormattingRemoved(last, style) then [RESET_CODE] else []
  }

  function ColorCodes(last: Style, style: Style): seq<char> {
    if ColorWritten(last, style) then [style.color.value.code] else []
  }

  /** The codes `toLegacyString` writes at a style change: flags are repeated
      only after a reset, even when a colour code was just written. */
  function CodesAsWritten(last: Style, style: Style): seq<char> {
    ResetCodes(last, style) + ColorCodes(last, style) + FlagCodes(last, style, FormattingRemoved(last, style))
  }

  /** The codes at a style change with the flags repeated after any colour
      code too, since a colour code ends the formatting before it. */
  function Codes(last: Style, style: Style): seq<char> {
    ResetCodes(last, style) + ColorCodes(last, style)
    + FlagCodes(last, style, FormattingRemoved(last, style) || ColorWritten(last, style))
  }

  /** Each code character preceded by `§`. */
  function Pairs(codes: seq<char>): (r: string)
    ensures |r| == 2 * |codes|
    ensures forall i :: 0 <= i < |codes| ==> r[2 * i] == SECTION && r[2 * i + 1] == codes[i]
  {
    if codes == [] then [] else [SECTION, codes[0]] + Pairs(codes[1..])
  }

  /** The codes written before a character in `style` that follows one in
      `last`: none when the style is unchanged; `corrected` selects `Codes`
      over `CodesAsWritten`. */
  function StepCodes(last: Style, style: Style, corrected: bool): seq<char> {
    if style == last then [] else if corrected then Codes(last, style) else CodesAsWritten(last, style)
  }

  /** The sink of `toLegacyString` run over `cs` with `last` as the style of
      the previous character. */
  function EncodeFrom(last: Style, cs: seq<StyledChar>, corrected: bool): string
    decreases |cs|
  {
    if cs == [] then []
    else Pairs(StepCodes(last, cs[0].style, corrected)) + [CharCast(cs[0].ch)] + EncodeFrom(cs[0].style, cs[1..], corrected)
  }

  /** Every character is written, so the encoding is at least as long as
      the text. */
  lemma {:induction false} EncodeLength(last: Style, cs: seq<StyledChar>, corrected: bool)
    ensures |EncodeFrom(last, cs, corrected)| >= |cs|
    decreases |cs|
  {
    if cs != [] {
      EncodeLength(cs[0].style, cs[1..], corrected);
    }
  }

  /** What both encoders write from an unstyled start. */
  lemma EncodeFacts(cs: seq<StyledChar>, corrected: bool)
    ensures |EncodeFrom(EMPTY_STYLE, cs, corrected)| >= |cs|
    ensures (forall i :: 0 <= i < |cs| ==> cs[i].style == EMPTY_STYLE) ==> EncodeFrom(EMPTY_STYLE, cs, corrected) == WrittenChars(cs)
  {
    EncodeLength(EMPTY_STYLE, cs, corrected);
    if forall i :: 0 <= i < |cs| ==> cs[i].style == EMPTY_STYLE {
      SameStyleRunIsPlain(EMPTY_STYLE, cs, corrected);
    }
  }

  /** `toLegacyString` as the source writes it. */
  function ToLegacyStringAsWritten(cs: seq<StyledChar>): (r: string)
    ensures |r| >= |cs|
    ensures (forall i :: 0 <= i < |cs| ==> cs[i].style == EMPTY_STYLE) ==> r == WrittenChars(cs)
  {
    EncodeFacts(cs, false);
    EncodeFrom(EMPTY_STYLE, cs, false)
  }

  /** `toLegacyString` with the flags repeated after a colour code. */
  function ToLegacyString(cs: seq<StyledChar>): (r: string)
    ensures |r| >= |cs|
    ensures (forall i :: 0 <= i < |cs| ==> cs[i].style == EMPTY_STYLE) ==> r == WrittenChars(cs)
  {
    EncodeFacts(cs, true);
    EncodeFrom(EMPTY_STYLE, cs, true)
  }

  /** A change confined to the fields without a code writes no code at all. */
  lemma EventsOnlyChangeWritesNothing(last: Style, style: Style)
    requires style == last.(events := style.events)
    ensures Codes(last, style) == [] && CodesAsWritten(last, style) == []
  {
  }

  const NON_COLOR_CODES: seq<char> :=
    [RESET_CODE, BOLD_CODE, ITALIC_CODE, UNDERLINE_CODE, STRIKETHROUGH_CODE, OBFUSCATED_CODE]

  /** Without a named colour only reset and flag codes are written. */
  lemma HexColorWritesNoColorCode(last: Style, style: Style)
    requires style.color.None? || style.color.value.Hex?
    ensures forall x :: x in Codes(last, style) ==> x in NON_COLOR_CODES
    ensures forall x :: x in CodesAsWritten(last, style) ==> x in NON_COLOR_CODES
  {
    assert ColorCodes(last, style) == [];
  }

  /** After a reset both versions write the colour and every flag that is on. */
  lemma ResetRepeatsEverything(last: Style, style: Style)
    requires FormattingRemoved(last, style)
    ensures Codes(last, style) == CodesAsWritten(last, style)
    ensures Codes(last, style) == [RESET_CODE] + ColorCodes(EMPTY_STYLE, style) + FlagCodes(EMPTY_STYLE, style, false)
  {
  }

  /** A run of characters in the style already in force is written as its
      cast characters, with no code anywhere. */
  lemma {:induction false} SameStyleRunIsPlain(s: Style, cs: seq<StyledChar>, corrected: bool)
    requires forall i :: 0 <= i < |cs| ==> cs[i].style == s
    ensures EncodeFrom(s, cs, corrected) == WrittenChars(cs)
    decreases |cs|
  {
    if cs != [] {
      SameStyleRunIsPlain(s, cs[1..], corrected);
    }
  }

  /** Unstyled characters come out as their cast characters, which is
      exactly their plain text inside the Basic Multilingual Plane. */
  lemma UnstyledIsPlain(cs: seq<StyledChar>)
    requires forall i :: 0 <= i < |cs| ==> cs[i].style == EMPTY_STYLE
    ensures ToLegacyString(cs) == WrittenChars(cs)
    ensures ToLegacyStringAsWritten(cs) == WrittenChars(cs)
    ensures (forall i :: 0 <= i < |cs| ==> cs[i].ch as int < 0x10000) ==> ToLegacyStringAsWritten(cs) == Chars(cs)
  {
    if forall i :: 0 <= i < |cs| ==> cs[i].ch as int < 0x10000 {
      WrittenBmpIsPlain(cs);
    }
  }
}
