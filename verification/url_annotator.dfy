/** Plain-text image URLs in chat: a message is flattened into styled text
    segments, each URL token in a segment without a click event that
    qualifies as a whitelisted image URL gets an "open URL" click event,
    and the message is rebuilt from the pieces.

    Whether a token qualifies (`isImageUrl && isWhitelisted`) and whether it
    parses as a URI are the oracles `qualifies` and `parses`. */
module PlainTextUrlAnnotator {
  import opened JavaText
  import opened Wrappers
  import TU = TextUtils
  import HP = ImageHoverPreview

  /** A click event: opening a URL, or any other action. */
  datatype Click = OpenUrl(url: string) | OtherClick(action: nat)

  /** A segment's style: its click event and the rest. */
  datatype Style = Style(base: TU.Style, click: Option<Click>)

  datatype Segment = Segment(style: Style, text: string)

  // ---------------------------------------------------------------------
  // URL_PATTERN
  // ---------------------------------------------------------------------

  /** A character of `[^\s<>"')\]]`. */
  predicate IsTokenChar(c: char) {
    !HP.IsSpace(c) && c != '<' && c != '>' && c != '"' && c != '\'' && c != ')' && c != ']'
  }

  /** The end of the run of token characters from `k`. */
  function RunEnd(s: string, k: nat): (e: nat)
    requires k <= |s|
    ensures k <= e <= |s|
    ensures forall j :: k <= j < e ==> IsTokenChar(s[j])
    ensures e < |s| ==> !IsTokenChar(s[e])
    decreases |s| - k
  {
    if k == |s| || !IsTokenChar(s[k]) then k else RunEnd(s, k + 1)
  }

  /** The scheme `https?://`, in any case, at `i`: its length or 0. */
  function SchemeAt(s: string, i: nat): (n: nat)
    ensures n == 0 || n == 7 || n == 8
    ensures n > 0 ==> i + n <= |s|
  {
    HP.SchemeLen(ToLower(s), i)
  }

  /** A token of `https?://[^\s<>"')\]]+` starts at `i`. */
  predicate TokenStarts(s: string, i: nat) {
    SchemeAt(s, i) > 0 && RunEnd(s, i + SchemeAt(s, i)) > i + SchemeAt(s, i)
  }

  /** `Matcher.find` from `from`: the first token's start and end. */
  function NextMatch(s: string, from: nat): (r: Option<(nat, nat)>)
    requires from <= |s|
    ensures r.Some? ==> (from <= r.value.0 < r.value.1 <= |s| && TokenStarts(s, r.value.0)
      && r.value.1 == RunEnd(s, r.value.0 + SchemeAt(s, r.value.0)))
    ensures r.Some? ==> forall i :: from <= i < r.value.0 ==> !TokenStarts(s, i)
    ensures r.None? ==> forall i :: from <= i <= |s| ==> !TokenStarts(s, i)
    decreases |s| - from
  {
    if from == |s| then None
    else if TokenStarts(s, from) then Some((from, RunEnd(s, from + SchemeAt(s, from))))
    else NextMatch(s, from + 1)
  }

  /** The scheme found at `a` reads "http://" or "https://" in lower case. */
  lemma SchemeIsHttp(s: string, a: nat)
    requires SchemeAt(s, a) > 0
    ensures ToLower(s[a..a + 7]) == "http://" || ToLower(s[a..a + 8]) == "https://"
  {
    var n := SchemeAt(s, a);
    assert ToLower(s[a..a + n]) == ToLower(s)[a..a + n];
  }

  /** A token is the scheme followed by a maximal non-empty run of token
      characters. */
  lemma TokenShape(s: string, from: nat)
    requires from <= |s|
    ensures NextMatch(s, from).Some? ==>
      var (a, b) := NextMatch(s, from).value;
      && (ToLower(s[a..a + 7]) == "http://" || ToLower(s[a..a + 8]) == "https://")
      && (forall j :: a + SchemeAt(s, a) <= j < b ==> IsTokenChar(s[j]))
      && (b < |s| ==> !IsTokenChar(s[b]))
  {
    if NextMatch(s, from).Some? {
      SchemeIsHttp(s, NextMatch(s, from).value.0);
    }
  }

  // ---------------------------------------------------------------------
  // One segment
  // ---------------------------------------------------------------------

  /** Some token from `from` on qualifies: the detection loop. */
  function HasQualifying(t: string, from: nat, qualifies: string -> bool): bool
    requires from <= |t|
    decreases |t| - from
  {
    match NextMatch(t, from)
    case None => false
    case Some((a, b)) => qualifies(t[a..b]) || HasQualifying(t, b, qualifies)
  }

  /** The rebuild loop over the tokens from `from`: the pieces it appends,
      the end of the last qualifying token (`lastEnd`), and whether one
      qualified. */
  function Scan(t: string, st: Style, from: nat, lastEnd: nat, qualifies: string -> bool, parses: string -> bool)
    : (r: (seq<Segment>, nat, bool))
    requires lastEnd <= from <= |t|
    ensures lastEnd <= r.1 <= |t|
    ensures !r.2 ==> r.0 == [] && r.1 == lastEnd
    decreases |t| - from
  {
    match NextMatch(t, from)
    case None => ([], lastEnd, false)
    case Some((a, b)) =>
      var url := t[a..b];
      if !qualifies(url) then Scan(t, st, b, lastEnd, qualifies, parses)
      else
        var before := if a > lastEnd then [Segment(st, t[lastEnd..a])] else [];
        var style := if parses(url) then st.(click := Some(OpenUrl(url))) else st;
        var rest := Scan(t, st, b, b, qualifies, parses);
        (before + [Segment(style, url)] + rest.0, rest.1, true)
  }

  /** The text of a list of segments. */
  function Text(segs: seq<Segment>): string {
    if segs == [] then [] else segs[0].text + Text(segs[1..])
  }

  lemma {:induction false} TextAppend(a: seq<Segment>, b: seq<Segment>)
    ensures Text(a + b) == Text(a) + Text(b)
    decreases |a|
  {
    if a == [] {
      assert a + b == b;
    } else {
      TextAppend(a[1..], b);
      assert (a + b)[1..] == a[1..] + b;
    }
  }

  lemma TextOfThree(before: seq<Segment>, mid: Segment, rest: seq<Segment>)
    ensures Text(before + [mid] + rest) == Text(before) + mid.text + Text(rest)
  {
    TextAppend(before + [mid], rest);
    TextAppend(before, [mid]);
    assert Text([mid]) == mid.text + Text([]);
  }

  lemma SliceThree(t: string, i: nat, a: nat, b: nat)
    requires i <= a <= b <= |t|
    ensures t[i..a] + t[a..b] + t[b..] == t[i..]
  {
  }

  /** The pieces and the rest of the text after the last qualifying token
      spell the text after `lastEnd`. */
  lemma {:induction false} ScanKeepsText(t: string, st: Style, from: nat, lastEnd: nat, qualifies: string -> bool, parses: string -> bool)
    requires lastEnd <= from <= |t|
    ensures var r := Scan(t, st, from, lastEnd, qualifies, parses);
      Text(r.0) + t[r.1..] == t[lastEnd..]
    decreases |t| - from
  {
    var next := NextMatch(t, from);
    if next.Some? {
      var (a, b) := next.value;
      var url := t[a..b];
      if !qualifies(url) {
        ScanKeepsText(t, st, b, lastEnd, qualifies, parses);
      } else {
        var before := if a > lastEnd then [Segment(st, t[lastEnd..a])] else [];
        var style := if parses(url) then st.(click := Some(OpenUrl(url))) else st;
        var rest := Scan(t, st, b, b, qualifies, parses);
        assert Scan(t, st, from, lastEnd, qualifies, parses) == (before + [Segment(style, url)] + rest.0, rest.1, true);
        ScanKeepsText(t, st, b, b, qualifies, parses);
        assert Text(before) == t[lastEnd..a] by {
          if a > lastEnd { assert Text(before) == t[lastEnd..a] + Text([]); }
        }
        HitKeepsText(t, lastEnd, a, b, rest.1, before, Segment(style, url), rest.0);
      }
    }
  }

  /** The text before a token, the token and what follows it spell the
      text from `lastEnd` on. */
  lemma HitKeepsText(t: string, lastEnd: nat, a: nat, b: nat, e: nat, before: seq<Segment>, mid: Segment, rest: seq<Segment>)
    requires lastEnd <= a <= b <= e <= |t|
    requires Text(before) == t[lastEnd..a] && mid.text == t[a..b] && Text(rest) + t[e..] == t[b..]
    ensures Text(before + [mid] + rest) + t[e..] == t[lastEnd..]
  {
    TextOfThree(before, mid, rest);
    SliceThree(t, lastEnd, a, b);
  }

  /** A piece either keeps the segment's style or is a qualifying token
      whose style differs only by an "open URL" click event for it. */
  ghost predicate StyledFrom(p: Segment, st: Style, qualifies: string -> bool) {
    p.style == st || (qualifies(p.text) && p.style == st.(click := Some(OpenUrl(p.text))))
  }

  lemma {:induction false} ScanStyles(t: string, st: Style, from: nat, lastEnd: nat, qualifies: string -> bool, parses: string -> bool)
    requires lastEnd <= from <= |t|
    ensures forall p :: p in Scan(t, st, from, lastEnd, qualifies, parses).0 ==> StyledFrom(p, st, qualifies)
    decreases |t| - from
  {
    match NextMatch(t, from)
    case None =>
    case Some((a, b)) =>
      if !qualifies(t[a..b]) {
        ScanStyles(t, st, b, lastEnd, qualifies, parses);
      } else {
        ScanStyles(t, st, b, b, qualifies, parses);
      }
  }

  /** The loop finds a qualifying token exactly when the detection loop
      does. */
  lemma {:induction false} ScanFindsIffDetected(t: string, st: Style, from: nat, lastEnd: nat, qualifies: string -> bool, parses: string -> bool)
    requires lastEnd <= from <= |t|
    ensures Scan(t, st, from, lastEnd, qualifies, parses).2 <==> HasQualifying(t, from, qualifies)
    decreases |t| - from
  {
    match NextMatch(t, from)
    case None =>
    case Some((a, b)) =>
      if !qualifies(t[a..b]) {
        ScanFindsIffDetected(t, st, b, lastEnd, qualifies, parses);
      }
  }

  /** One segment of the rebuild: a segment with a click event, or one
      without a qualifying token, is copied whole; otherwise it is split
      into its pieces. */
  function AnnotateSegment(seg: Segment, qualifies: string -> bool, parses: string -> bool): (r: seq<Segment>)
    ensures seg.style.click.Some? ==> r == [seg]
    ensures seg.style.click.None? && !HasQualifying(seg.text, 0, qualifies) ==> r == [seg]
  {
    if seg.style.click.Some? then [seg]
    else
      var (pieces, lastEnd, found) := Scan(seg.text, seg.style, 0, 0, qualifies, parses);
      ScanFindsIffDetected(seg.text, seg.style, 0, 0, qualifies, parses);
      if !found then [seg]
      else pieces + (if lastEnd < |seg.text| then [Segment(seg.style, seg.text[lastEnd..])] else [])
  }

  /** Splitting a segment keeps its text, and every piece keeps its style
      or adds an "open URL" event for its own qualifying text. */
  lemma AnnotateSegmentKeeps(seg: Segment, qualifies: string -> bool, parses: string -> bool)
    ensures Text(AnnotateSegment(seg, qualifies, parses)) == seg.text
    ensures forall p :: p in AnnotateSegment(seg, qualifies, parses) ==> StyledFrom(p, seg.style, qualifies)
  {
    var r := AnnotateSegment(seg, qualifies, parses);
    if r == [seg] {
      assert Text([seg]) == seg.text + Text([]);
    } else {
      var (pieces, lastEnd, found) := Scan(seg.text, seg.style, 0, 0, qualifies, parses);
      ScanKeepsText(seg.text, seg.style, 0, 0, qualifies, parses);
      ScanStyles(seg.text, seg.style, 0, 0, qualifies, parses);
      var tail := if lastEnd < |seg.text| then [Segment(seg.style, seg.text[lastEnd..])] else [];
      TextAppend(pieces, tail);
      assert Text(tail) == seg.text[lastEnd..] by {
        if lastEnd < |seg.text| {
          assert Text(tail) == seg.text[lastEnd..] + Text([]);
        }
      }
      assert seg.text[0..] == seg.text;
    }
  }

  // ---------------------------------------------------------------------
  // Which characters become links
  // ---------------------------------------------------------------------

  /** The successive tokens `Matcher.find` reports from `from`. */
  function Tokens(t: string, from: nat): seq<(nat, nat)>
    requires from <= |t|
    decreases |t| - from
  {
    match NextMatch(t, from)
    case None => []
    case Some((a, b)) => [(a, b)] + Tokens(t, b)
  }

  /** Non-empty tokens from `from` on, each ending before the next starts. */
  predicate Ordered(toks: seq<(nat, nat)>, from: nat, n: nat) {
    && (forall j :: 0 <= j < |toks| ==> from <= toks[j].0 < toks[j].1 <= n)
    && (forall j, k :: 0 <= j < k < |toks| ==> toks[j].1 <= toks[k].0)
  }

  lemma {:induction false} TokensOrdered(t: string, from: nat)
    requires from <= |t|
    ensures Ordered(Tokens(t, from), from, |t|)
    decreases |t| - from
  {
    var next := NextMatch(t, from);
    if next.Some? {
      var (a, b) := next.value;
      var later := Tokens(t, b);
      TokensOrdered(t, b);
      OrderedCons(a, b, later, from, |t|);
    }
  }

  lemma OrderedCons(a: nat, b: nat, later: seq<(nat, nat)>, from: nat, n: nat)
    requires from <= a < b <= n && Ordered(later, b, n)
    ensures Ordered([(a, b)] + later, from, n)
  {
    var toks := [(a, b)] + later;
    forall j | 0 < j < |toks|
      ensures toks[j] == later[j - 1]
    {
    }
  }

  lemma OrderedTail(toks: seq<(nat, nat)>, from: nat, n: nat)
    requires toks != [] && Ordered(toks, from, n)
    ensures Ordered(toks[1..], toks[0].1, n) && Ordered(toks[1..], from, n)
  {
    var rest := toks[1..];
    forall j | 0 <= j < |rest|
      ensures rest[j] == toks[j + 1]
    {
    }
  }

  /** The rebuild loop over a list of tokens: `Scan` with the tokens
      `Matcher.find` reports spelled out. */
  function ScanList(toks: seq<(nat, nat)>, t: string, st: Style, lastEnd: nat,
                    qualifies: string -> bool, parses: string -> bool): (r: (seq<Segment>, nat, bool))
    requires lastEnd <= |t| && Ordered(toks, lastEnd, |t|)
    ensures lastEnd <= r.1 <= |t|
    ensures !r.2 ==> r.0 == [] && r.1 == lastEnd
    decreases |toks|
  {
    if toks == [] then ([], lastEnd, false)
    else
      var (a, b) := toks[0];
      OrderedTail(toks, lastEnd, |t|);
      var url := t[a..b];
      if !qualifies(url) then ScanList(toks[1..], t, st, lastEnd, qualifies, parses)
      else
        var before := if a > lastEnd then [Segment(st, t[lastEnd..a])] else [];
        var style := if parses(url) then st.(click := Some(OpenUrl(url))) else st;
        var rest := ScanList(toks[1..], t, st, b, qualifies, parses);
        (before + [Segment(style, url)] + rest.0, rest.1, true)
  }

  lemma OrderedFrom(toks: seq<(nat, nat)>, from: nat, from': nat, n: nat)
    requires from' <= from && Ordered(toks, from, n)
    ensures Ordered(toks, from', n)
  {
  }

  /** `Scan` is `ScanList` over the tokens found from `from`. */
  lemma {:induction false} ScanIsScanList(t: string, st: Style, from: nat, lastEnd: nat,
                                         qualifies: string -> bool, parses: string -> bool)
    requires lastEnd <= from <= |t|
    ensures Ordered(Tokens(t, from), lastEnd, |t|)
    ensures Scan(t, st, from, lastEnd, qualifies, parses) == ScanList(Tokens(t, from), t, st, lastEnd, qualifies, parses)
    decreases |t| - from
  {
    TokensOrdered(t, from);
    OrderedFrom(Tokens(t, from), from, lastEnd, |t|);
    var next := NextMatch(t, from);
    if next.Some? {
      var (a, b) := next.value;
      var toks := Tokens(t, from);
      assert toks == [(a, b)] + Tokens(t, b);
      assert toks[0] == (a, b) && toks[1..] == Tokens(t, b);
      if qualifies(t[a..b]) {
        ScanIsScanList(t, st, b, b, qualifies, parses);
      } else {
        ScanIsScanList(t, st, b, lastEnd, qualifies, parses);
      }
    }
  }

  /** The style the rebuild should give character `i` of a segment styled
      `st`: inside a token of `toks` that qualifies and parses as a URI, `st`
      with an "open URL" click for that token; anywhere else, `st`. */
  function StyleIn(toks: seq<(nat, nat)>, t: string, st: Style, i: nat,
                   qualifies: string -> bool, parses: string -> bool): Style
  {
    if toks == [] then st
    else
      var (a, b) := toks[0];
      if a <= i < b <= |t| && qualifies(t[a..b]) && parses(t[a..b]) then st.(click := Some(OpenUrl(t[a..b])))
      else StyleIn(toks[1..], t, st, i, qualifies, parses)
  }

  /** Character `i` of `t` lies in token `j` of `toks`, and that token
      qualifies and parses as a URI. */
  predicate LinkAt(toks: seq<(nat, nat)>, t: string, j: nat, i: nat, qualifies: string -> bool, parses: string -> bool) {
    j < |toks| && toks[j].0 <= i < toks[j].1 <= |t|
      && qualifies(t[toks[j].0..toks[j].1]) && parses(t[toks[j].0..toks[j].1])
  }

  /** A character of a token that qualifies and parses gets that token's click. */
  lemma {:induction false} StyleInsideLink(toks: seq<(nat, nat)>, t: string, st: Style, from: nat, j: nat, i: nat,
                                          qualifies: string -> bool, parses: string -> bool)
    requires Ordered(toks, from, |t|) && LinkAt(toks, t, j, i, qualifies, parses)
    ensures StyleIn(toks, t, st, i, qualifies, parses) == st.(click := Some(OpenUrl(t[toks[j].0..toks[j].1])))
    decreases |toks|
  {
    if j > 0 {
      assert toks[0].1 <= toks[j].0;
      var rest := toks[1..];
      assert rest[j - 1] == toks[j];
      assert Ordered(rest, from, |t|) by {
        forall m, n | 0 <= m < n < |rest|
          ensures rest[m].1 <= rest[n].0
        {
          assert rest[m] == toks[m + 1] && rest[n] == toks[n + 1];
        }
      }
      StyleInsideLink(rest, t, st, from, j - 1, i, qualifies, parses);
    }
  }

  /** A character in no token that qualifies and parses keeps the segment
      style. */
  lemma {:induction false} StyleOutsideLinks(toks: seq<(nat, nat)>, t: string, st: Style, i: nat,
                                            qualifies: string -> bool, parses: string -> bool)
    requires forall j: nat :: !LinkAt(toks, t, j, i, qualifies, parses)
    ensures StyleIn(toks, t, st, i, qualifies, parses) == st
    decreases |toks|
  {
    if toks != [] {
      var rest := toks[1..];
      assert !LinkAt(toks, t, 0, i, qualifies, parses);
      forall j: nat | true
        ensures !LinkAt(rest, t, j, i, qualifies, parses)
      {
        assert !LinkAt(toks, t, j + 1, i, qualifies, parses);
        if j < |rest| {
          assert rest[j] == toks[j + 1];
        }
      }
      StyleOutsideLinks(rest, t, st, i, qualifies, parses);
    }
  }

  /** A character before every token keeps the segment style. */
  lemma StyleBeforeTokens(toks: seq<(nat, nat)>, t: string, st: Style, i: nat, from: nat,
                          qualifies: string -> bool, parses: string -> bool)
    requires Ordered(toks, from, |t|) && i < from
    ensures StyleIn(toks, t, st, i, qualifies, parses) == st
  {
    forall j: nat | true
      ensures !LinkAt(toks, t, j, i, qualifies, parses)
    {
    }
    StyleOutsideLinks(toks, t, st, i, qualifies, parses);
  }

  /** `n` characters' worth of one style. */
  function Repeat(s: Style, n: nat): (r: seq<Style>)
    ensures |r| == n
  {
    if n == 0 then [] else [s] + Repeat(s, n - 1)
  }

  /** The styles of the characters from `lo` to the end of `t`. */
  function Reference(toks: seq<(nat, nat)>, t: string, st: Style, lo: nat,
                     qualifies: string -> bool, parses: string -> bool): (r: seq<Style>)
    requires lo <= |t|
    ensures |r| == |t| - lo
    decreases |t| - lo
  {
    if lo == |t| then [] else [StyleIn(toks, t, st, lo, qualifies, parses)] + Reference(toks, t, st, lo + 1, qualifies, parses)
  }

  lemma {:induction false} ReferenceIndex(toks: seq<(nat, nat)>, t: string, st: Style, lo: nat, k: nat,
                                         qualifies: string -> bool, parses: string -> bool)
    requires lo + k < |t|
    ensures Reference(toks, t, st, lo, qualifies, parses)[k] == StyleIn(toks, t, st, lo + k, qualifies, parses)
    decreases k
  {
    if k > 0 {
      ReferenceIndex(toks, t, st, lo + 1, k - 1, qualifies, parses);
    }
  }

  /** Two token lists that style every character from `lo` alike give the
      same styles. */
  lemma {:induction false} ReferenceSame(toks: seq<(nat, nat)>, toks': seq<(nat, nat)>, t: string, st: Style, lo: nat,
                                        qualifies: string -> bool, parses: string -> bool)
    requires lo <= |t|
    requires forall i :: lo <= i < |t| ==>
      StyleIn(toks, t, st, i, qualifies, parses) == StyleIn(toks', t, st, i, qualifies, parses)
    ensures Reference(toks, t, st, lo, qualifies, parses) == Reference(toks', t, st, lo, qualifies, parses)
    decreases |t| - lo
  {
    if lo < |t| {
      ReferenceSame(toks, toks', t, st, lo + 1, qualifies, parses);
    }
  }

  /** A stretch of characters that all get style `s`. */
  lemma {:induction false} ReferenceConst(toks: seq<(nat, nat)>, t: string, st: Style, lo: nat, hi: nat, s: Style,
                                         qualifies: string -> bool, parses: string -> bool)
    requires lo <= hi <= |t|
    requires forall i :: lo <= i < hi ==> StyleIn(toks, t, st, i, qualifies, parses) == s
    ensures Reference(toks, t, st, lo, qualifies, parses)
      == Repeat(s, hi - lo) + Reference(toks, t, st, hi, qualifies, parses)
    decreases hi - lo
  {
    if lo < hi {
      ReferenceConst(toks, t, st, lo + 1, hi, s, qualifies, parses);
      ConcatRegroup([s], Repeat(s, hi - lo - 1), Reference(toks, t, st, hi, qualifies, parses));
    }
  }

  /** The style of every character of a list of segments, in order. */
  function CharStyles(segs: seq<Segment>): (r: seq<Style>)
    ensures |r| == |Text(segs)|
  {
    if segs == [] then [] else Repeat(segs[0].style, |segs[0].text|) + CharStyles(segs[1..])
  }

  lemma {:induction false} CharStylesAppend(a: seq<Segment>, b: seq<Segment>)
    ensures CharStyles(a + b) == CharStyles(a) + CharStyles(b)
    decreases |a|
  {
    if a == [] {
      assert a + b == b;
    } else {
      CharStylesAppend(a[1..], b);
      assert (a + b)[1..] == a[1..] + b;
      ConcatRegroup(Repeat(a[0].style, |a[0].text|), CharStyles(a[1..]), CharStyles(b));
    }
  }

  lemma CharStylesOne(p: Segment)
    ensures CharStyles([p]) == Repeat(p.style, |p.text|)
  {
    assert CharStyles([p]) == Repeat(p.style, |p.text|) + CharStyles([]);
  }

  /** One character near a token that qualifies: before it, the segment
      style; inside it, its click if it parses; after it, what the later
      tokens say. */
  lemma LinkStepAt(t: string, st: Style, a: nat, b: nat, later: seq<(nat, nat)>, i: nat,
                   qualifies: string -> bool, parses: string -> bool)
    requires a < b <= |t| && Ordered(later, b, |t|)
    requires qualifies(t[a..b])
    ensures StyleIn([(a, b)] + later, t, st, i, qualifies, parses) ==
      if i < a then st
      else if i < b then (if parses(t[a..b]) then st.(click := Some(OpenUrl(t[a..b]))) else st)
      else StyleIn(later, t, st, i, qualifies, parses)
  {
    assert ([(a, b)] + later)[1..] == later;
    if i < b {
      StyleBeforeTokens(later, t, st, i, b, qualifies, parses);
    }
  }

  /** Across a token that qualifies: the text before it keeps the segment
      style, the token gets its click if it parses, and the rest is styled
      by the later tokens. */
  lemma LinkStepStyles(t: string, st: Style, lastEnd: nat, a: nat, b: nat, later: seq<(nat, nat)>, style: Style,
                       qualifies: string -> bool, parses: string -> bool)
    requires lastEnd <= a < b <= |t| && Ordered(later, b, |t|)
    requires qualifies(t[a..b])
    requires style == if parses(t[a..b]) then st.(click := Some(OpenUrl(t[a..b]))) else st
    ensures Repeat(st, a - lastEnd) + Repeat(style, b - a) + Reference(later, t, st, b, qualifies, parses)
      == Reference([(a, b)] + later, t, st, lastEnd, qualifies, parses)
  {
    var toks := [(a, b)] + later;
    forall i | lastEnd <= i < |t|
      ensures StyleIn(toks, t, st, i, qualifies, parses) ==
        if i < a then st else if i < b then style else StyleIn(later, t, st, i, qualifies, parses)
    {
      LinkStepAt(t, st, a, b, later, i, qualifies, parses);
    }
    ReferenceConst(toks, t, st, lastEnd, a, st, qualifies, parses);
    ReferenceConst(toks, t, st, a, b, style, qualifies, parses);
    ReferenceSame(toks, later, t, st, b, qualifies, parses);
  }

  /** The pieces appended for a token that qualifies, regrouped. */
  lemma LinkStepPieces(before: seq<Segment>, style: Style, url: string, rest: seq<Segment>, head: seq<Style>, tail: seq<Style>)
    requires CharStyles(before) == head
    ensures CharStyles(before + [Segment(style, url)] + rest) + tail
      == head + Repeat(style, |url|) + (CharStyles(rest) + tail)
  {
    CharStylesAppend(before + [Segment(style, url)], rest);
    CharStylesAppend(before, [Segment(style, url)]);
    CharStylesOne(Segment(style, url));
    ConcatRegroup(head + Repeat(style, |url|), CharStyles(rest), tail);
  }

  /** A token that does not qualify styles no character, so skipping it
      leaves the pieces as they are. */
  lemma SkipStep(t: string, st: Style, lastEnd: nat, a: nat, b: nat, e: nat, later: seq<(nat, nat)>,
                 pieces: seq<Segment>, qualifies: string -> bool, parses: string -> bool)
    requires lastEnd <= |t| && a <= b <= |t| && e <= |t|
    requires !qualifies(t[a..b])
    requires CharStyles(pieces) + Repeat(st, |t| - e) == Reference(later, t, st, lastEnd, qualifies, parses)
    ensures CharStyles(pieces) + Repeat(st, |t| - e) == Reference([(a, b)] + later, t, st, lastEnd, qualifies, parses)
  {
    assert ([(a, b)] + later)[1..] == later;
    ReferenceSame([(a, b)] + later, later, t, st, lastEnd, qualifies, parses);
  }

  /** The pieces for the text before a token that qualifies, the token
      and what follows it style the text from `lastEnd` on as `StyleIn`
      says. */
  lemma LinkStep(t: string, st: Style, lastEnd: nat, a: nat, b: nat, e: nat, later: seq<(nat, nat)>,
                 before: seq<Segment>, style: Style, rest: seq<Segment>,
                 qualifies: string -> bool, parses: string -> bool)
    requires lastEnd <= a < b <= e <= |t| && Ordered(later, b, |t|)
    requires qualifies(t[a..b])
    requires style == if parses(t[a..b]) then st.(click := Some(OpenUrl(t[a..b]))) else st
    requires before == if a > lastEnd then [Segment(st, t[lastEnd..a])] else []
    requires CharStyles(rest) + Repeat(st, |t| - e) == Reference(later, t, st, b, qualifies, parses)
    ensures CharStyles(before + [Segment(style, t[a..b])] + rest) + Repeat(st, |t| - e)
      == Reference([(a, b)] + later, t, st, lastEnd, qualifies, parses)
  {
    assert CharStyles(before) == Repeat(st, a - lastEnd) by {
      if a > lastEnd {
        CharStylesOne(Segment(st, t[lastEnd..a]));
      }
    }
    LinkStepPieces(before, style, t[a..b], rest, Repeat(st, a - lastEnd), Repeat(st, |t| - e));
    LinkStepStyles(t, st, lastEnd, a, b, later, style, qualifies, parses);
  }

  /** The pieces the loop appends from `lastEnd` on, followed by the rest of
      the text in the segment style, style every character as `StyleIn` says. */
  lemma {:induction false} ScanListCharStyles(toks: seq<(nat, nat)>, t: string, st: Style, lastEnd: nat,
                                             qualifies: string -> bool, parses: string -> bool)
    requires lastEnd <= |t| && Ordered(toks, lastEnd, |t|)
    ensures CharStyles(ScanList(toks, t, st, lastEnd, qualifies, parses).0)
      + Repeat(st, |t| - ScanList(toks, t, st, lastEnd, qualifies, parses).1)
      == Reference(toks, t, st, lastEnd, qualifies, parses)
    decreases |toks|
  {
    if toks == [] {
      ReferenceConst([], t, st, lastEnd, |t|, st, qualifies, parses);
      assert Repeat(st, |t| - lastEnd) + [] == Repeat(st, |t| - lastEnd);
    } else {
      var (a, b) := toks[0];
      var later := toks[1..];
      OrderedTail(toks, lastEnd, |t|);
      assert toks == [(a, b)] + later;
      var url := t[a..b];
      if !qualifies(url) {
        var skip := ScanList(later, t, st, lastEnd, qualifies, parses);
        assert ScanList(toks, t, st, lastEnd, qualifies, parses) == skip;
        ScanListCharStyles(later, t, st, lastEnd, qualifies, parses);
        SkipStep(t, st, lastEnd, a, b, skip.1, later, skip.0, qualifies, parses);
      } else {
        var before := if a > lastEnd then [Segment(st, t[lastEnd..a])] else [];
        var style := if parses(url) then st.(click := Some(OpenUrl(url))) else st;
        var rest := ScanList(later, t, st, b, qualifies, parses);
        assert ScanList(toks, t, st, lastEnd, qualifies, parses) == (before + [Segment(style, url)] + rest.0, rest.1, true);
        ScanListCharStyles(later, t, st, b, qualifies, parses);
        LinkStep(t, st, lastEnd, a, b, rest.1, later, before, style, rest.0, qualifies, parses);
      }
    }
  }

  /** The character styles a segment should end up with: a segment with a
      click event keeps its style everywhere, any other is styled by its
      tokens. */
  function SegmentReference(seg: Segment, qualifies: string -> bool, parses: string -> bool): (r: seq<Style>)
    ensures |r| == |seg.text|
  {
    if seg.style.click.Some? then Repeat(seg.style, |seg.text|)
    else Reference(Tokens(seg.text, 0), seg.text, seg.style, 0, qualifies, parses)
  }

  /** No qualifying token: the segment is appended whole. */
  lemma WholeStep(st: Style, t: string, want: seq<Style>)
    requires CharStyles([]) + Repeat(st, |t|) == want
    ensures CharStyles([Segment(st, t)]) == want
  {
    assert CharStyles([]) + Repeat(st, |t|) == Repeat(st, |t|);
    CharStylesOne(Segment(st, t));
  }

  /** The text after the last qualifying token is appended in the segment's
      style. */
  lemma TailStep(pieces: seq<Segment>, st: Style, t: string, e: nat, want: seq<Style>)
    requires e <= |t|
    requires CharStyles(pieces) + Repeat(st, |t| - e) == want
    ensures CharStyles(pieces + (if e < |t| then [Segment(st, t[e..])] else [])) == want
  {
    if e < |t| {
      CharStylesAppend(pieces, [Segment(st, t[e..])]);
      CharStylesOne(Segment(st, t[e..]));
    } else {
      assert pieces + [] == pieces;
      assert CharStyles(pieces) + Repeat(st, 0) == CharStyles(pieces);
    }
  }

  /** A segment without a click event, rebuilt over a list of tokens: whole
      when no token qualifies, otherwise the pieces and the text after the
      last qualifying token. */
  function Rebuilt(toks: seq<(nat, nat)>, t: string, st: Style, qualifies: string -> bool, parses: string -> bool)
    : seq<Segment>
    requires Ordered(toks, 0, |t|)
  {
    var sl := ScanList(toks, t, st, 0, qualifies, parses);
    if !sl.2 then [Segment(st, t)]
    else sl.0 + (if sl.1 < |t| then [Segment(st, t[sl.1..])] else [])
  }

  lemma AnnotateSegmentIsList(seg: Segment, qualifies: string -> bool, parses: string -> bool)
    requires seg.style.click.None?
    ensures Ordered(Tokens(seg.text, 0), 0, |seg.text|)
    ensures AnnotateSegment(seg, qualifies, parses) == Rebuilt(Tokens(seg.text, 0), seg.text, seg.style, qualifies, parses)
  {
    ScanIsScanList(seg.text, seg.style, 0, 0, qualifies, parses);
  }

  lemma RebuiltStyles(toks: seq<(nat, nat)>, t: string, st: Style, qualifies: string -> bool, parses: string -> bool)
    requires Ordered(toks, 0, |t|)
    ensures CharStyles(Rebuilt(toks, t, st, qualifies, parses)) == Reference(toks, t, st, 0, qualifies, parses)
  {
    var sl := ScanList(toks, t, st, 0, qualifies, parses);
    var want := Reference(toks, t, st, 0, qualifies, parses);
    ScanListCharStyles(toks, t, st, 0, qualifies, parses);
    if !sl.2 {
      WholeStep(st, t, want);
    } else {
      TailStep(sl.0, st, t, sl.1, want);
    }
  }

  /** One segment of the rebuild, character by character: its styles are
      the ones `SegmentReference` gives. */
  lemma AnnotateSegmentStyles(seg: Segment, qualifies: string -> bool, parses: string -> bool)
    ensures CharStyles(AnnotateSegment(seg, qualifies, parses)) == SegmentReference(seg, qualifies, parses)
  {
    if seg.style.click.Some? {
      CharStylesOne(seg);
    } else {
      AnnotateSegmentIsList(seg, qualifies, parses);
      RebuiltStyles(Tokens(seg.text, 0), seg.text, seg.style, qualifies, parses);
    }
  }

  /** Character `i` of a segment without a click event, after the rebuild:
      inside a token that qualifies and parses as a URI it carries the
      segment's style with an "open URL" click for exactly that token;
      anywhere else it keeps the segment's style. */
  lemma AnnotatedCharacter(seg: Segment, i: nat, qualifies: string -> bool, parses: string -> bool)
    requires seg.style.click.None? && i < |seg.text|
    ensures |CharStyles(AnnotateSegment(seg, qualifies, parses))| == |seg.text|
    ensures var toks := Tokens(seg.text, 0);
      forall j: nat :: LinkAt(toks, seg.text, j, i, qualifies, parses) ==>
        CharStyles(AnnotateSegment(seg, qualifies, parses))[i]
          == seg.style.(click := Some(OpenUrl(seg.text[toks[j].0..toks[j].1])))
    ensures (forall j: nat :: !LinkAt(Tokens(seg.text, 0), seg.text, j, i, qualifies, parses)) ==>
      CharStyles(AnnotateSegment(seg, qualifies, parses))[i] == seg.style
  {
    var t := seg.text;
    var toks := Tokens(t, 0);
    AnnotateSegmentStyles(seg, qualifies, parses);
    ReferenceIndex(toks, t, seg.style, 0, i, qualifies, parses);
    TokensOrdered(t, 0);
    forall j: nat | LinkAt(toks, t, j, i, qualifies, parses)
      ensures StyleIn(toks, t, seg.style, i, qualifies, parses) == seg.style.(click := Some(OpenUrl(t[toks[j].0..toks[j].1])))
    {
      StyleInsideLink(toks, t, seg.style, 0, j, i, qualifies, parses);
    }
    if forall j: nat :: !LinkAt(toks, t, j, i, qualifies, parses) {
      StyleOutsideLinks(toks, t, seg.style, i, qualifies, parses);
    }
  }

  // ---------------------------------------------------------------------
  // The message
  // ---------------------------------------------------------------------

  /** The detection loop over the segments: a segment without a click event
      holds a qualifying token. */
  predicate NeedsAnnotation(segs: seq<Segment>, qualifies: string -> bool) {
    exists i :: 0 <= i < |segs| && segs[i].style.click.None? && HasQualifying(segs[i].text, 0, qualifies)
  }

  /** The rebuild loop over the segments: each segment's pieces in order,
      spelling the same text as the originals. */
  function AnnotateAll(segs: seq<Segment>, qualifies: string -> bool, parses: string -> bool): (r: seq<Segment>)
    ensures Text(r) == Text(segs)
    decreases |segs|
  {
    if segs == [] then []
    else
      var head := AnnotateSegment(segs[0], qualifies, parses);
      var tail := AnnotateAll(segs[1..], qualifies, parses);
      AnnotateSegmentKeeps(segs[0], qualifies, parses);
      TextAppend(head, tail);
      head + tail
  }

  /** The character styles of the whole message after the rebuild. */
  function MessageReference(segs: seq<Segment>, qualifies: string -> bool, parses: string -> bool): seq<Style> {
    if segs == [] then [] else SegmentReference(segs[0], qualifies, parses) + MessageReference(segs[1..], qualifies, parses)
  }

  /** The rebuilt message styles each character as its own segment's
      reference says. */
  lemma {:induction false} AnnotateAllStyles(segs: seq<Segment>, qualifies: string -> bool, parses: string -> bool)
    ensures CharStyles(AnnotateAll(segs, qualifies, parses)) == MessageReference(segs, qualifies, parses)
    decreases |segs|
  {
    if segs != [] {
      AnnotateSegmentStyles(segs[0], qualifies, parses);
      AnnotateAllStyles(segs[1..], qualifies, parses);
      CharStylesAppend(AnnotateSegment(segs[0], qualifies, parses), AnnotateAll(segs[1..], qualifies, parses));
    }
  }

  /** `annotate`: `None` stands for the original component returned
      unchanged, which happens when the feature is off or no segment needs
      a click event; otherwise the rebuilt segments, which spell the same
      text and style every character as `MessageReference` says. */
  function Annotate(enabled: bool, segs: seq<Segment>, qualifies: string -> bool, parses: string -> bool)
    : (r: Option<seq<Segment>>)
    ensures r.None? <==> !enabled || !NeedsAnnotation(segs, qualifies)
    ensures r.Some? ==> Text(r.value) == Text(segs)
    ensures r.Some? ==> CharStyles(r.value) == MessageReference(segs, qualifies, parses)
  {
    if !enabled || !NeedsAnnotation(segs, qualifies) then None
    else
      AnnotateAllStyles(segs, qualifies, parses);
      Some(AnnotateAll(segs, qualifies, parses))
  }

  /** Segments with a click event pass through the rebuild unchanged: a
      message made only of them is never rebuilt. */
  lemma ClickSegmentsUntouched(segs: seq<Segment>, qualifies: string -> bool, parses: string -> bool)
    requires forall i :: 0 <= i < |segs| ==> segs[i].style.click.Some?
    ensures Annotate(true, segs, qualifies, parses).None?
    ensures AnnotateAll(segs, qualifies, parses) == segs
  {
    AllClickPassThrough(segs, qualifies, parses);
  }

  lemma {:induction false} AllClickPassThrough(segs: seq<Segment>, qualifies: string -> bool, parses: string -> bool)
    requires forall i :: 0 <= i < |segs| ==> segs[i].style.click.Some?
    ensures AnnotateAll(segs, qualifies, parses) == segs
    decreases |segs|
  {
    if segs != [] {
      AllClickPassThrough(segs[1..], qualifies, parses);
      assert segs == [segs[0]] + segs[1..];
    }
  }
}
