/** What the legacy string of a styled component looks like once read back
    by the regex tester's colour preview: the preview must show every
    character with exactly the colour and formatting the component gave it. */
module LegacyRoundTrip {
  import opened Wrappers
  import opened TextUtils
  import RT = RegexTester

  function ClassSet(classes: seq<string>): set<string> {
    set c | c in classes
  }

  /** The preview class of a style's colour; RGB colours have none. */
  function ColorClassOf(s: Style): set<string> {
    if s.color.Some? && s.color.value.Named? then
      var code := s.color.value.code;
      if RT.ColorClass(code).Some? then {RT.ColorClass(code).value} else {}
    else {}
  }

  function FlagClass(code: char): set<string> {
    if RT.FormatClass(code).Some? then {RT.FormatClass(code).value} else {}
  }

  function On(on: bool, classes: set<string>): set<string> {
    if on then classes else {}
  }

  function FlagClasses(s: Style): set<string> {
    On(s.bold, FlagClass(BOLD_CODE))
    + On(s.italic, FlagClass(ITALIC_CODE))
    + On(s.underlined, FlagClass(UNDERLINE_CODE))
    + On(s.strikethrough, FlagClass(STRIKETHROUGH_CODE))
    + On(s.obfuscated, FlagClass(OBFUSCATED_CODE))
  }

  /** The preview classes a character in style `s` ought to carry. */
  function Expected(s: Style): set<string> {
    ColorClassOf(s) + FlagClasses(s)
  }

  /** The preview as class sets and characters. */
  function Shown(ps: seq<RT.Piece>): seq<(set<string>, char)> {
    if ps == [] then [] else [(ClassSet(ps[0].classes), ps[0].ch)] + Shown(ps[1..])
  }

  /** The component as the preview ought to show it: each character as the
      encoder writes it (see `CharCast`), with its style's classes. */
  function Intended(cs: seq<StyledChar>): (r: seq<(set<string>, char)>)
    ensures |r| == |cs|
    ensures forall i :: 0 <= i < |cs| ==> r[i] == (Expected(cs[i].style), CharCast(cs[i].ch))
  {
    if cs == [] then [] else [(Expected(cs[0].style), CharCast(cs[0].ch))] + Intended(cs[1..])
  }

  function ApplyCodes(classes: seq<string>, codes: seq<char>): (r: seq<string>)
    requires RT.WellFormed(classes)
    ensures RT.WellFormed(r)
    decreases |codes|
  {
    if codes == [] then classes else ApplyCodes(RT.ApplyCode(classes, codes[0]), codes[1..])
  }

  lemma {:induction false} ApplyCodesConcat(classes: seq<string>, a: seq<char>, b: seq<char>)
    requires RT.WellFormed(classes)
    ensures ApplyCodes(classes, a + b) == ApplyCodes(ApplyCodes(classes, a), b)
    decreases |a|
  {
    if a == [] {
      assert a + b == b;
    } else {
      assert (a + b)[0] == a[0] && (a + b)[1..] == a[1..] + b;
      ApplyCodesConcat(RT.ApplyCode(classes, a[0]), a[1..], b);
    }
  }

  /** The characters the encoder uses as codes: lower case already, and
      never a line terminator. */
  predicate IsCodeChar(x: char) {
    x in "0123456789abcdefklmnor"
  }

  lemma CodeCharFacts(x: char)
    requires IsCodeChar(x)
    ensures RT.LowerCode(x) == x && !RT.IsLineTerminator(x) && x != SECTION
  {
  }

  lemma StepCodesAreCodeChars(last: Style, style: Style, corrected: bool)
    ensures forall x :: x in StepCodes(last, style, corrected) ==> IsCodeChar(x)
  {
  }

  /** The preview reads a run of code pairs as those codes, one by one. */
  lemma {:induction false} ParsePairs(codes: seq<char>, rest: string, classes: seq<string>)
    requires RT.WellFormed(classes)
    requires forall x :: x in codes ==> IsCodeChar(x)
    ensures RT.ParseFrom(Pairs(codes) + rest, classes) == RT.ParseFrom(rest, ApplyCodes(classes, codes))
    decreases |codes|
  {
    if codes != [] {
      var text := Pairs(codes) + rest;
      var after := Pairs(codes[1..]) + rest;
      assert text == [SECTION, codes[0]] + after;
      assert text[0] == SECTION && text[1] == codes[0] && text[2..] == after;
      CodeCharFacts(codes[0]);
      var next := RT.ApplyCode(classes, codes[0]);
      assert RT.ParseFrom(text, classes) == RT.ParseFrom(after, next);
      ParsePairs(codes[1..], rest, next);
    } else {
      assert Pairs(codes) + rest == rest;
    }
  }

  /** Removing a run of code pairs reads the same as the text after it. */
  lemma {:induction false} StripPairs(codes: seq<char>, rest: string)
    requires forall x :: x in codes ==> IsCodeChar(x)
    ensures RT.StripCodes(Pairs(codes) + rest) == RT.StripCodes(rest)
    decreases |codes|
  {
    if codes != [] {
      var text := Pairs(codes) + rest;
      var after := Pairs(codes[1..]) + rest;
      assert text == [SECTION, codes[0]] + after;
      assert text[0] == SECTION && text[1] == codes[0] && text[2..] == after;
      CodeCharFacts(codes[0]);
      assert RT.StripCodes(text) == RT.StripCodes(after);
      StripPairs(codes[1..], rest);
    } else {
      assert Pairs(codes) + rest == rest;
    }
  }

  /** The set of format classes a run of format codes puts in force. */
  function FormatSet(codes: seq<char>): set<string> {
    if codes == [] then {} else FlagClass(codes[0]) + FormatSet(codes[1..])
  }

  lemma {:induction false} ApplyFormatCodes(classes: seq<string>, codes: seq<char>)
    requires RT.WellFormed(classes)
    requires forall x :: x in codes ==> x in FLAG_CODES
    ensures ClassSet(ApplyCodes(classes, codes)) == ClassSet(classes) + FormatSet(codes)
    decreases |codes|
  {
    if codes != [] {
      var next := RT.ApplyCode(classes, codes[0]);
      assert codes[0] in codes;
      ApplyFlagCode(classes, codes[0]);
      ApplyFormatCodes(next, codes[1..]);
    }
  }

  /** A flag code adds its class to those in force. */
  lemma ApplyFlagCode(classes: seq<string>, code: char)
    requires RT.WellFormed(classes) && code in FLAG_CODES
    ensures ClassSet(RT.ApplyCode(classes, code)) == ClassSet(classes) + FlagClass(code)
  {
    assert RT.FormatClass(code).Some? by {
      assert code == BOLD_CODE || code == ITALIC_CODE || code == UNDERLINE_CODE
        || code == STRIKETHROUGH_CODE || code == OBFUSCATED_CODE;
    }
    var name := RT.FormatClass(code).value;
    var r := RT.ApplyCode(classes, code);
    assert FlagClass(code) == {name};
    forall c | c in ClassSet(r) ensures c in ClassSet(classes) + {name} {
    }
    forall c | c in ClassSet(classes) + {name} ensures c in ClassSet(r) {
    }
  }

  /** The flag classes written at a style change. */
  function WrittenFlags(last: Style, style: Style, again: bool): set<string> {
    On(style.bold && (again || !last.bold), FlagClass(BOLD_CODE))
    + On(style.italic && (again || !last.italic), FlagClass(ITALIC_CODE))
    + On(style.underlined && (again || !last.underlined), FlagClass(UNDERLINE_CODE))
    + On(style.strikethrough && (again || !last.strikethrough), FlagClass(STRIKETHROUGH_CODE))
    + On(style.obfuscated && (again || !last.obfuscated), FlagClass(OBFUSCATED_CODE))
  }

  lemma {:induction false} FormatSetConcat(a: seq<char>, b: seq<char>)
    ensures FormatSet(a + b) == FormatSet(a) + FormatSet(b)
    decreases |a|
  {
    if a == [] {
      assert a + b == b;
    } else {
      assert (a + b)[0] == a[0] && (a + b)[1..] == a[1..] + b;
      FormatSetConcat(a[1..], b);
    }
  }

  lemma FlagIfSet(on: bool, code: char)
    ensures FormatSet(FlagIf(on, code)) == On(on, FlagClass(code))
  {
    if on {
      assert FlagIf(on, code)[1..] == [];
    }
  }

  /** Five optional flag codes in a row put in force the union of their
      classes; stated for arbitrary codes so that no code is unfolded. */
  lemma FormatSetOfFive(o1: bool, o2: bool, o3: bool, o4: bool, o5: bool,
                        k1: char, k2: char, k3: char, k4: char, k5: char)
    ensures FormatSet(FlagIf(o1, k1) + FlagIf(o2, k2) + FlagIf(o3, k3) + FlagIf(o4, k4) + FlagIf(o5, k5))
      == On(o1, FlagClass(k1)) + On(o2, FlagClass(k2)) + On(o3, FlagClass(k3)) + On(o4, FlagClass(k4)) + On(o5, FlagClass(k5))
  {
    var b, i, u, s, o := FlagIf(o1, k1), FlagIf(o2, k2), FlagIf(o3, k3), FlagIf(o4, k4), FlagIf(o5, k5);
    FormatSetConcat(b, i);
    FormatSetConcat(b + i, u);
    FormatSetConcat(b + i + u, s);
    FormatSetConcat(b + i + u + s, o);
    FlagIfSet(o1, k1);
    FlagIfSet(o2, k2);
    FlagIfSet(o3, k3);
    FlagIfSet(o4, k4);
    FlagIfSet(o5, k5);
  }

  lemma FormatSetOfFlags(last: Style, style: Style, again: bool)
    ensures FormatSet(FlagCodes(last, style, again)) == WrittenFlags(last, style, again)
  {
    FormatSetOfFive(style.bold && (again || !last.bold), style.italic && (again || !last.italic),
                    style.underlined && (again || !last.underlined),
                    style.strikethrough && (again || !last.strikethrough),
                    style.obfuscated && (again || !last.obfuscated),
                    BOLD_CODE, ITALIC_CODE, UNDERLINE_CODE, STRIKETHROUGH_CODE, OBFUSCATED_CODE);
  }

  lemma FlagCodesEffect(classes: seq<string>, last: Style, style: Style, again: bool)
    requires RT.WellFormed(classes)
    ensures ClassSet(ApplyCodes(classes, FlagCodes(last, style, again))) == ClassSet(classes) + WrittenFlags(last, style, again)
  {
    FormatSetOfFlags(last, style, again);
    ApplyFormatCodes(classes, FlagCodes(last, style, again));
  }

  lemma ColorStep(classes: seq<string>, code: ColorCode)
    requires RT.WellFormed(classes)
    ensures RT.ColorClass(code).Some?
    ensures ApplyCodes(classes, [code]) == [RT.ColorClass(code).value]
    ensures ClassSet(ApplyCodes(classes, [code])) == {RT.ColorClass(code).value}
  {
    assert [code][1..] == [];
    assert ClassSet([RT.ColorClass(code).value]) == {RT.ColorClass(code).value};
  }

  /** After a reset, or after a colour code, every flag that is on is written. */
  lemma RepeatedFlagsComplete(last: Style, style: Style)
    ensures WrittenFlags(last, style, true) == FlagClasses(style)
  {
  }

  /** Without reset or colour code, the newly written flags add up with the
      ones in force to the new style's flags, and the colour class stays. */
  lemma IncrementalFlagsComplete(last: Style, style: Style)
    requires !FormattingRemoved(last, style) && !ColorWritten(last, style)
    ensures Expected(last) + WrittenFlags(last, style, false) == Expected(style)
  {
    var a := ColorClassOf(last);
    var f1 := FlagClasses(last);
    var w := WrittenFlags(last, style, false);
    var f2 := FlagClasses(style);
    assert f1 + w == f2 by {
      FlagAlgebra(last.bold, last.italic, last.underlined, last.strikethrough, last.obfuscated,
                  style.bold, style.italic, style.underlined, style.strikethrough, style.obfuscated,
                  FlagClass(BOLD_CODE), FlagClass(ITALIC_CODE), FlagClass(UNDERLINE_CODE),
                  FlagClass(STRIKETHROUGH_CODE), FlagClass(OBFUSCATED_CODE));
    }
    assert a == ColorClassOf(style) by {
      ColorClassKept(last, style);
    }
    assert Expected(last) == a + f1;
    assert Expected(style) == a + f2;
  }

  lemma ColorClassKept(last: Style, style: Style)
    requires !FormattingRemoved(last, style) && !ColorWritten(last, style)
    ensures ColorClassOf(last) == ColorClassOf(style)
  {
    if last.color.None? {
      assert !(style.color.Some? && style.color.value.Named?);
    } else {
      assert last.color == style.color;
    }
  }

  /** Flags only turned on: the ones in force plus the newly written ones. */
  lemma FlagAlgebra(l1: bool, l2: bool, l3: bool, l4: bool, l5: bool,
                    s1: bool, s2: bool, s3: bool, s4: bool, s5: bool,
                    c1: set<string>, c2: set<string>, c3: set<string>, c4: set<string>, c5: set<string>)
    requires (l1 ==> s1) && (l2 ==> s2) && (l3 ==> s3) && (l4 ==> s4) && (l5 ==> s5)
    ensures (On(l1, c1) + On(l2, c2) + On(l3, c3) + On(l4, c4) + On(l5, c5))
      + (On(s1 && !l1, c1) + On(s2 && !l2, c2) + On(s3 && !l3, c3) + On(s4 && !l4, c4) + On(s5 && !l5, c5))
      == On(s1, c1) + On(s2, c2) + On(s3, c3) + On(s4, c4) + On(s5, c5)
  {
    OnSplit(l1, s1, c1);
    OnSplit(l2, s2, c2);
    OnSplit(l3, s3, c3);
    OnSplit(l4, s4, c4);
    OnSplit(l5, s5, c5);
    Regroup(On(l1, c1), On(l2, c2), On(l3, c3), On(l4, c4), On(l5, c5),
            On(s1 && !l1, c1), On(s2 && !l2, c2), On(s3 && !l3, c3), On(s4 && !l4, c4), On(s5 && !l5, c5));
  }

  /** A flag in force already, or newly written, is a flag of the new style. */
  lemma OnSplit(l: bool, s: bool, c: set<string>)
    requires l ==> s
    ensures On(l, c) + On(s && !l, c) == On(s, c)
  {
  }

  lemma Regroup<T>(a1: set<T>, a2: set<T>, a3: set<T>, a4: set<T>, a5: set<T>,
                   b1: set<T>, b2: set<T>, b3: set<T>, b4: set<T>, b5: set<T>)
    ensures (a1 + a2 + a3 + a4 + a5) + (b1 + b2 + b3 + b4 + b5)
      == (a1 + b1) + (a2 + b2) + (a3 + b3) + (a4 + b4) + (a5 + b5)
  {
  }

  /** A reset code empties the preview's classes; no reset keeps them. */
  lemma ResetEffect(classes: seq<string>, last: Style, style: Style)
    requires RT.WellFormed(classes)
    ensures FormattingRemoved(last, style) ==> ApplyCodes(classes, ResetCodes(last, style)) == []
    ensures !FormattingRemoved(last, style) ==> ApplyCodes(classes, ResetCodes(last, style)) == classes
  {
    if FormattingRemoved(last, style) {
      assert ResetCodes(last, style) == [RESET_CODE];
      assert ResetCodes(last, style)[1..] == [];
    }
  }

  /** A written colour code leaves exactly the new colour's class. */
  lemma ColorEffect(classes: seq<string>, last: Style, style: Style)
    requires RT.WellFormed(classes)
    ensures ColorWritten(last, style) ==> ClassSet(ApplyCodes(classes, ColorCodes(last, style))) == ColorClassOf(style)
    ensures !ColorWritten(last, style) ==> ApplyCodes(classes, ColorCodes(last, style)) == classes
  {
    if ColorWritten(last, style) {
      ColorStep(classes, style.color.value.code);
    }
  }

  /** The corrected codes of a style change are the reset, colour and flag
      codes in that order, flags repeated after a reset or a colour. */
  lemma CorrectedCodesSplit(last: Style, style: Style)
    requires style != last
    ensures StepCodes(last, style, true)
      == ResetCodes(last, style) + ColorCodes(last, style)
         + FlagCodes(last, style, FormattingRemoved(last, style) || ColorWritten(last, style))
  {
  }

  /** One style change with the corrected codes takes the preview from the
      previous style's classes to the new style's. */
  lemma CorrectedStep(classes: seq<string>, last: Style, style: Style)
    requires RT.WellFormed(classes)
    ensures ClassSet(classes) == Expected(last) ==>
      ClassSet(ApplyCodes(classes, StepCodes(last, style, true))) == Expected(style)
  {
    if style != last && ClassSet(classes) == Expected(last) {
      var removed := FormattingRemoved(last, style);
      var written := ColorWritten(last, style);
      var again := removed || written;
      var reset := ResetCodes(last, style);
      var color := ColorCodes(last, style);
      var flags := FlagCodes(last, style, again);
      var afterReset := ApplyCodes(classes, reset);
      var afterColor := ApplyCodes(afterReset, color);
      var result := ApplyCodes(classes, StepCodes(last, style, true));
      assert result == ApplyCodes(afterColor, flags) by {
        CorrectedCodesSplit(last, style);
        ApplyCodesConcat(classes, reset, color);
        ApplyCodesConcat(classes, reset + color, flags);
      }
      assert ClassSet(result) == ClassSet(afterColor) + WrittenFlags(last, style, again) by {
        FlagCodesEffect(afterColor, last, style, again);
      }
      AfterColorThenFlags(classes, last, style);
    }
  }

  /** The reset and colour codes of a style change, followed by the flags
      they make necessary, leave exactly the new style's classes. */
  lemma AfterColorThenFlags(classes: seq<string>, last: Style, style: Style)
    requires RT.WellFormed(classes)
    ensures var afterColor := ApplyCodes(ApplyCodes(classes, ResetCodes(last, style)), ColorCodes(last, style));
      ClassSet(classes) == Expected(last) ==>
      ClassSet(afterColor) + WrittenFlags(last, style, FormattingRemoved(last, style) || ColorWritten(last, style))
        == Expected(style)
  {
    if ClassSet(classes) == Expected(last) {
      var removed := FormattingRemoved(last, style);
      var written := ColorWritten(last, style);
      var afterReset := ApplyCodes(classes, ResetCodes(last, style));
      var afterColor := ApplyCodes(afterReset, ColorCodes(last, style));
      ResetEffect(classes, last, style);
      ColorEffect(afterReset, last, style);
      if written {
        assert ClassSet(afterColor) == ColorClassOf(style);
        RepeatedFlagsComplete(last, style);
      } else if removed {
        assert afterColor == [];
        assert ClassSet(afterColor) == {};
        assert ColorClassOf(style) == {};
        RepeatedFlagsComplete(last, style);
      } else {
        assert afterColor == classes;
        IncrementalFlagsComplete(last, style);
      }
    }
  }

  /** The preview reads the codes before a character, then the character
      itself in the classes those codes leave. */
  lemma ParseHead(last: Style, cs: seq<StyledChar>, classes: seq<string>, corrected: bool)
    requires RT.WellFormed(classes)
    requires cs != [] && CharCast(cs[0].ch) != SECTION
    ensures var next := ApplyCodes(classes, StepCodes(last, cs[0].style, corrected));
      RT.ParseFrom(EncodeFrom(last, cs, corrected), classes)
      == [RT.Piece(next, CharCast(cs[0].ch))] + RT.ParseFrom(EncodeFrom(cs[0].style, cs[1..], corrected), next)
  {
    var codes := StepCodes(last, cs[0].style, corrected);
    var tail := EncodeFrom(cs[0].style, cs[1..], corrected);
    EncodeHead(last, cs, corrected);
    StepCodesAreCodeChars(last, cs[0].style, corrected);
    ParseCodedChar(codes, CharCast(cs[0].ch), tail, classes);
  }

  /** The encoding starts with the codes of the first character's step. */
  lemma EncodeHead(last: Style, cs: seq<StyledChar>, corrected: bool)
    requires cs != []
    ensures EncodeFrom(last, cs, corrected)
      == Pairs(StepCodes(last, cs[0].style, corrected)) + ([CharCast(cs[0].ch)] + EncodeFrom(cs[0].style, cs[1..], corrected))
  {
  }

  /** A run of code pairs followed by a plain character reads as that
      character in the classes the codes leave. */
  lemma ParseCodedChar(codes: seq<char>, c: char, tail: string, classes: seq<string>)
    requires RT.WellFormed(classes) && c != SECTION
    requires forall x :: x in codes ==> IsCodeChar(x)
    ensures RT.ParseFrom(Pairs(codes) + ([c] + tail), classes)
      == [RT.Piece(ApplyCodes(classes, codes), c)] + RT.ParseFrom(tail, ApplyCodes(classes, codes))
  {
    ParsePairs(codes, [c] + tail, classes);
    ParsePlainHead(c, tail, ApplyCodes(classes, codes));
  }

  /** A character other than `§` is shown in the current classes. */
  lemma ParsePlainHead(c: char, tail: string, classes: seq<string>)
    requires RT.WellFormed(classes) && c != SECTION
    ensures RT.ParseFrom([c] + tail, classes) == [RT.Piece(classes, c)] + RT.ParseFrom(tail, classes)
  {
    assert ([c] + tail)[1..] == tail;
  }

  /** The corrected encoder, read back by the preview, shows every character
      once, in order, with exactly its style's classes. */
  lemma {:induction false} CorrectedRoundTripFrom(last: Style, cs: seq<StyledChar>, classes: seq<string>)
    requires RT.WellFormed(classes)
    requires forall i :: 0 <= i < |cs| ==> CharCast(cs[i].ch) != SECTION
    ensures ClassSet(classes) == Expected(last) ==> Shown(RT.ParseFrom(EncodeFrom(last, cs, true), classes)) == Intended(cs)
    decreases |cs|
  {
    if cs != [] && ClassSet(classes) == Expected(last) {
      var style := cs[0].style;
      var next := ApplyCodes(classes, StepCodes(last, style, true));
      var rest := RT.ParseFrom(EncodeFrom(style, cs[1..], true), next);
      ParseHead(last, cs, classes, true);
      CorrectedStep(classes, last, style);
      CorrectedRoundTripFrom(style, cs[1..], next);
      assert ([RT.Piece(next, CharCast(cs[0].ch))] + rest)[1..] == rest;
    }
  }

  /** From an unstyled start, the preview of the corrected legacy string
      holds one entry per character, each with that character's classes. */
  lemma CorrectedRoundTrip(cs: seq<StyledChar>)
    requires forall i :: 0 <= i < |cs| ==> CharCast(cs[i].ch) != SECTION
    ensures var shown := Shown(RT.ParseMinecraftColors(ToLegacyString(cs)));
      && |shown| == |cs|
      && forall i :: 0 <= i < |cs| ==> shown[i] == (Expected(cs[i].style), CharCast(cs[i].ch))
  {
    CorrectedRoundTripFrom(EMPTY_STYLE, cs, []);
  }

  /** Both encoders keep the written text: stripping the codes, as the tester
      does for a pattern without '&', gives back the cast characters. */
  lemma {:induction false} StripRecoversText(last: Style, cs: seq<StyledChar>, corrected: bool)
    requires forall i :: 0 <= i < |cs| ==> CharCast(cs[i].ch) != SECTION
    ensures RT.StripCodes(EncodeFrom(last, cs, corrected)) == WrittenChars(cs)
    decreases |cs|
  {
    if cs != [] {
      var style := cs[0].style;
      var codes := StepCodes(last, style, corrected);
      var tail := EncodeFrom(style, cs[1..], corrected);
      var c := CharCast(cs[0].ch);
      assert EncodeFrom(last, cs, corrected) == Pairs(codes) + ([c] + tail);
      StepCodesAreCodeChars(last, style, corrected);
      StripPairs(codes, [c] + tail);
      assert ([c] + tail)[1..] == tail;
      StripRecoversText(style, cs[1..], corrected);
    }
  }

  const BOLD: Style := EMPTY_STYLE.(bold := true)
  const BOLD_RED: Style := BOLD.(color := Some(Named('c')))

  /** The two-character component of the counterexample: a bold 'a', then a
      'b' that is bold and red. */
  function BoldThenRed(): seq<StyledChar> {
    [StyledChar(BOLD, 'a'), StyledChar(BOLD_RED, 'b')]
  }

  /** At the second character the source writes only the colour code,
      since bold was already on; the corrected encoder repeats the bold. */
  lemma BoldStep()
    ensures StepCodes(EMPTY_STYLE, BOLD, false) == [BOLD_CODE]
  {
  }

  lemma RedStep()
    ensures StepCodes(BOLD, BOLD_RED, false) == ['c']
  {
  }

  lemma AsWrittenEncoding()
    ensures ToLegacyStringAsWritten(BoldThenRed()) == "§la§cb"
  {
    AsWrittenHead();
    AsWrittenTail();
    assert "§l" + (['a'] + "§cb") == "§la§cb";
  }

  lemma AsWrittenHead()
    ensures EncodeFrom(EMPTY_STYLE, BoldThenRed(), false) == "§l" + (['a'] + EncodeFrom(BOLD, BoldThenRed()[1..], false))
  {
    EncodeHead(EMPTY_STYLE, BoldThenRed(), false);
    BoldStep();
    assert Pairs([BOLD_CODE]) == "§l";
  }

  lemma AsWrittenTail()
    ensures EncodeFrom(BOLD, BoldThenRed()[1..], false) == "§cb"
  {
    assert BoldThenRed()[1..] == [StyledChar(BOLD_RED, 'b')];
    EncodeSingle(BOLD, StyledChar(BOLD_RED, 'b'), false);
    RedStep();
    assert Pairs(['c']) == "§c";
  }

  lemma EncodeSingle(last: Style, c: StyledChar, corrected: bool)
    ensures EncodeFrom(last, [c], corrected) == Pairs(StepCodes(last, c.style, corrected)) + [CharCast(c.ch)]
  {
    EncodeHead(last, [c], corrected);
    assert [c][1..] == [];
  }

  /** The classes in force at each character of the source's encoding. */
  function AsWrittenClasses(): (seq<string>, seq<string>) {
    var n1 := ApplyCodes([], StepCodes(EMPTY_STYLE, BOLD, false));
    (n1, ApplyCodes(n1, StepCodes(BOLD, BOLD_RED, false)))
  }

  lemma AsWrittenParsed()
    ensures RT.ParseMinecraftColors(ToLegacyStringAsWritten(BoldThenRed()))
      == [RT.Piece(AsWrittenClasses().0, 'a'), RT.Piece(AsWrittenClasses().1, 'b')]
  {
    AsWrittenFirstPiece();
    AsWrittenSecondPiece();
  }

  lemma AsWrittenFirstPiece()
    ensures RT.ParseMinecraftColors(ToLegacyStringAsWritten(BoldThenRed()))
      == [RT.Piece(AsWrittenClasses().0, 'a')]
         + RT.ParseFrom(EncodeFrom(BOLD, BoldThenRed()[1..], false), AsWrittenClasses().0)
  {
    ParseHead(EMPTY_STYLE, BoldThenRed(), [], false);
  }

  lemma AsWrittenSecondPiece()
    ensures RT.ParseFrom(EncodeFrom(BOLD, BoldThenRed()[1..], false), AsWrittenClasses().0)
      == [RT.Piece(AsWrittenClasses().1, 'b')]
  {
    var cs := BoldThenRed();
    assert cs[1..] == [StyledChar(BOLD_RED, 'b')];
    ParseSingle(BOLD, StyledChar(BOLD_RED, 'b'), AsWrittenClasses().0, false);
  }

  /** The encoding of a single character reads back as that character in
      the classes its codes leave. */
  lemma ParseSingle(last: Style, c: StyledChar, classes: seq<string>, corrected: bool)
    requires RT.WellFormed(classes) && CharCast(c.ch) != SECTION
    ensures RT.ParseFrom(EncodeFrom(last, [c], corrected), classes)
      == [RT.Piece(ApplyCodes(classes, StepCodes(last, c.style, corrected)), CharCast(c.ch))]
  {
    ParseHead(last, [c], classes, corrected);
    assert [c][1..] == [];
  }

  /** The colour code leaves only the colour's class: bold is gone. */
  lemma AsWrittenRedOnly()
    ensures AsWrittenClasses().1 == ["color-red"]
  {
    var n1 := AsWrittenClasses().0;
    RedStep();
    ColorStep(n1, 'c');
    RedClass();
  }

  /** The preview shows the second character of the source's encoding red
      only. */
  lemma AsWrittenSecondShown()
    ensures |RT.ParseMinecraftColors(ToLegacyStringAsWritten(BoldThenRed()))| == 2
    ensures RT.ParseMinecraftColors(ToLegacyStringAsWritten(BoldThenRed()))[1].classes == ["color-red"]
  {
    AsWrittenParsed();
    AsWrittenRedOnly();
  }

  lemma RedClass()
    ensures RT.ColorClass('c') == Some("color-red")
  {
  }

  /** The source's encoder loses the bold of a bold character that turns red:
      it writes only the colour code, and a colour code ends the formatting.
      The corrected encoder keeps it. */
  lemma AsWrittenDropsBold()
    ensures ToLegacyStringAsWritten(BoldThenRed()) == "§la§cb"
    ensures Shown(RT.ParseMinecraftColors(ToLegacyStringAsWritten(BoldThenRed()))) != Intended(BoldThenRed())
    ensures Shown(RT.ParseMinecraftColors(ToLegacyString(BoldThenRed()))) == Intended(BoldThenRed())
  {
    AsWrittenEncoding();
    AsWrittenLosesBold();
    CorrectedKeepsBold();
  }

  /** The second character is shown without the bold class it should have. */
  lemma AsWrittenLosesBold()
    ensures Shown(RT.ParseMinecraftColors(ToLegacyStringAsWritten(BoldThenRed()))) != Intended(BoldThenRed())
  {
    var cs := BoldThenRed();
    var shown := Shown(RT.ParseMinecraftColors(ToLegacyStringAsWritten(cs)));
    AsWrittenSecondShown();
    assert "color-bold" in FlagClass(BOLD_CODE);
    assert "color-bold" in Expected(BOLD_RED);
    assert Intended(cs)[1].0 == Expected(BOLD_RED);
    assert shown[1..][0] == shown[1];
    assert shown[1].0 == ClassSet(["color-red"]);
    assert "color-bold" !in shown[1].0;
  }

  /** The corrected encoding of the same characters is shown as intended. */
  lemma CorrectedKeepsBold()
    ensures Shown(RT.ParseMinecraftColors(ToLegacyString(BoldThenRed()))) == Intended(BoldThenRed())
  {
    CorrectedRoundTripFrom(EMPTY_STYLE, BoldThenRed(), []);
  }
}
