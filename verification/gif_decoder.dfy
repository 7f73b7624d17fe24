/** GIF decoding on the unscaled path: each frame is drawn onto a canvas
    after the previous frame's disposal method (section 23 of the GIF89a
    specification, Graphic Control Extension) has been applied, and a copy of
    the canvas is kept per frame together with the frame's delay. Pixels have
    binary alpha; the image reader is a sequence of decoded frames with their
    metadata trees. */
module GifDecoder {
  import opened Wrappers
  import opened JavaText

  const MAX_FRAMES: int := 200
  const DEFAULT_DELAY_MS: int := 100
  const MIN_DELAY_MS: int := 20

  const RESTORE_TO_BACKGROUND: string := "restoreToBackgroundColor"
  const RESTORE_TO_PREVIOUS: string := "restoreToPrevious"
  const NO_DISPOSAL: string := "none"

  // ---------------------------------------------------------------------------
  // Pictures

  datatype Pixel = Clear | Opaque(argb: bv32)

  /** A rectangular grid of pixels, row by row. */
  datatype Image = Image(width: nat, height: nat, rows: seq<seq<Pixel>>) {
    predicate Valid() {
      |rows| == height && forall y :: 0 <= y < height ==> |rows[y]| == width
    }
  }

  type Picture = i: Image | i.Valid() witness Image(0, 0, [])

  /** A fully transparent canvas, as a new `TYPE_INT_ARGB` image starts. */
  function Blank(width: nat, height: nat): (r: Picture)
    ensures r.width == width && r.height == height
    ensures forall y, x :: 0 <= y < height && 0 <= x < width ==> r.rows[y][x] == Clear
  {
    Image(width, height, seq(height, _ => seq(width, _ => Clear)))
  }

  datatype Rect = Rect(x: int, y: int, width: int, height: int) {
    predicate Holds(px: int, py: int) {
      x <= px < x + width && y <= py < y + height
    }
  }

  /** The canvas pixel after drawing `frame` at (`fx`, `fy`) with source-over
      compositing: an opaque frame pixel covers, a clear one shows through. */
  function Over(canvas: Picture, frame: Picture, fx: int, fy: int, x: nat, y: nat): Pixel
    requires x < canvas.width && y < canvas.height
  {
    if Rect(fx, fy, frame.width, frame.height).Holds(x, y) && frame.rows[y - fy][x - fx].Opaque?
    then frame.rows[y - fy][x - fx]
    else canvas.rows[y][x]
  }

  /** `drawImage(frame, fx, fy)` on the canvas. */
  function Draw(canvas: Picture, frame: Picture, fx: int, fy: int): (r: Picture)
    ensures r.width == canvas.width && r.height == canvas.height
    ensures forall y, x :: 0 <= y < canvas.height && 0 <= x < canvas.width ==>
      r.rows[y][x] == Over(canvas, frame, fx, fy, x, y)
  {
    Image(canvas.width, canvas.height,
      seq(canvas.height, y requires 0 <= y < canvas.height =>
        seq(canvas.width, x requires 0 <= x < canvas.width => Over(canvas, frame, fx, fy, x, y))))
  }

  /** `fillRect` under the `Clear` composite: the rectangle becomes
      transparent. */
  function ClearRect(canvas: Picture, area: Rect): (r: Picture)
    ensures r.width == canvas.width && r.height == canvas.height
    ensures forall y, x :: 0 <= y < canvas.height && 0 <= x < canvas.width ==>
      r.rows[y][x] == (if area.Holds(x, y) then Clear else canvas.rows[y][x])
  {
    Image(canvas.width, canvas.height,
      seq(canvas.height, y requires 0 <= y < canvas.height =>
        seq(canvas.width, x requires 0 <= x < canvas.width => if area.Holds(x, y) then Clear else canvas.rows[y][x])))
  }

  /** Drawing leaves every pixel outside the frame's rectangle alone, and a
      frame with no opaque pixel changes nothing at all. */
  lemma DrawOnlyTouchesFrame(canvas: Picture, frame: Picture, fx: int, fy: int)
    ensures forall y, x ::
      0 <= y < canvas.height && 0 <= x < canvas.width && !Rect(fx, fy, frame.width, frame.height).Holds(x, y) ==>
        Draw(canvas, frame, fx, fy).rows[y][x] == canvas.rows[y][x]
    ensures (forall y, x :: 0 <= y < frame.height && 0 <= x < frame.width ==> frame.rows[y][x] == Clear)
      ==> Draw(canvas, frame, fx, fy) == canvas
  {
    var r := Draw(canvas, frame, fx, fy);
    if forall y, x :: 0 <= y < frame.height && 0 <= x < frame.width ==> frame.rows[y][x] == Clear {
      forall y | 0 <= y < canvas.height
        ensures r.rows[y] == canvas.rows[y]
      {
        assert forall x :: 0 <= x < canvas.width ==> r.rows[y][x] == canvas.rows[y][x];
      }
    }
  }

  /** A frame that is opaque everywhere and placed at the origin over the
      whole canvas replaces it. */
  lemma OpaqueFullFrameReplaces(canvas: Picture, frame: Picture)
    requires frame.width == canvas.width && frame.height == canvas.height
    requires forall y, x :: 0 <= y < frame.height && 0 <= x < frame.width ==> frame.rows[y][x].Opaque?
    ensures Draw(canvas, frame, 0, 0) == frame
  {
    var r := Draw(canvas, frame, 0, 0);
    forall y | 0 <= y < canvas.height
      ensures r.rows[y] == frame.rows[y]
    {
      assert forall x :: 0 <= x < canvas.width ==> r.rows[y][x] == frame.rows[y][x];
    }
  }

  // ---------------------------------------------------------------------------
  // parseFrameInfo

  /** The children of a frame's metadata tree that the decoder reads; the
      attribute values are the strings the tree holds, absent attributes `None`. */
  datatype FrameNode =
    | GraphicControl(delayTime: Option<string>, disposalMethod: Option<string>)
    | ImageDescriptor(left: Option<string>, top: Option<string>)
    | OtherFrameNode

  datatype FrameInfo = FrameInfo(x: int, y: int, delay: int, disposal: string)

  const DEFAULT_INFO: FrameInfo := FrameInfo(0, 0, DEFAULT_DELAY_MS, NO_DISPOSAL)

  /** The delay of a `delayTime` field in hundredths of a second, in `int`
      arithmetic, with anything under 20 ms replaced by 100 ms. */
  function DelayOf(centiseconds: int): (d: int)
    ensures d >= MIN_DELAY_MS
    ensures 2 <= centiseconds <= 0xFFFF ==> d == centiseconds * 10
    ensures 0 <= centiseconds < 2 ==> d == DEFAULT_DELAY_MS
  {
    var d := Wrap32(centiseconds * 10);
    if d < MIN_DELAY_MS then DEFAULT_DELAY_MS else d
  }

  /** The loop over the tree's children; a `parseInt` that throws ends the
      loop with the fields read so far. */
  function ParseChildren(children: seq<FrameNode>, info: FrameInfo): (r: FrameInfo)
    requires info.delay >= MIN_DELAY_MS
    ensures r.delay >= MIN_DELAY_MS
    ensures (forall k :: 0 <= k < |children| ==> children[k].OtherFrameNode?) ==> r == info
  {
    if children == [] then info
    else
      match children[0]
      case OtherFrameNode => ParseChildren(children[1..], info)
      case GraphicControl(delayTime, disposalMethod) =>
        if delayTime.Some? && ParseInt(delayTime.value).None? then info
        else
          var withDelay := if delayTime.Some? then info.(delay := DelayOf(ParseInt(delayTime.value).value)) else info;
          var withDisposal := if disposalMethod.Some? then withDelay.(disposal := disposalMethod.value) else withDelay;
          ParseChildren(children[1..], withDisposal)
      case ImageDescriptor(left, top) =>
        if left.Some? && ParseInt(left.value).None? then info
        else
          var withX := if left.Some? then info.(x := ParseInt(left.value).value) else info;
          if top.Some? && ParseInt(top.value).None? then withX
          else
            var withY := if top.Some? then withX.(y := ParseInt(top.value).value) else withX;
            ParseChildren(children[1..], withY)
  }

  /** `parseFrameInfo`; `None` is a metadata tree that could not be obtained,
      which keeps every default. */
  function ParseFrameInfo(tree: Option<seq<FrameNode>>): (r: FrameInfo)
    ensures r.delay >= MIN_DELAY_MS
    ensures tree.None? ==> r == DEFAULT_INFO
  {
    if tree.None? then DEFAULT_INFO else ParseChildren(tree.value, DEFAULT_INFO)
  }

  /** Without a control block a frame keeps the default delay and no disposal. */
  lemma {:induction false} NoControlBlockDefaults(children: seq<FrameNode>, info: FrameInfo)
    requires info.delay >= MIN_DELAY_MS
    requires forall k :: 0 <= k < |children| ==> !children[k].GraphicControl?
    ensures ParseChildren(children, info).delay == info.delay
    ensures ParseChildren(children, info).disposal == info.disposal
    decreases |children|
  {
    if children != [] {
      NoControlBlockDefaults(children[1..], ParseChildren(children[..1], info));
      match children[0]
      case OtherFrameNode =>
        NoControlBlockDefaults(children[1..], info);
      case ImageDescriptor(_, _) =>
    }
  }

  /** A control block with a valid 16-bit `delayTime` sets the delay to ten
      times that many milliseconds, or 100 ms below 20 ms, and sets the
      disposal method when present. */
  lemma ControlBlockRead(time: string, cs: int, disposal: Option<string>, rest: seq<FrameNode>)
    requires ParseInt(time) == Some(cs) && 0 <= cs <= 0xFFFF
    requires forall k :: 0 <= k < |rest| ==> rest[k].OtherFrameNode?
    ensures var r := ParseFrameInfo(Some([GraphicControl(Some(time), disposal)] + rest));
      && r.delay == (if cs * 10 < MIN_DELAY_MS then DEFAULT_DELAY_MS else cs * 10)
      && r.disposal == (if disposal.Some? then disposal.value else NO_DISPOSAL)
      && r.x == 0 && r.y == 0
  {
    var children := [GraphicControl(Some(time), disposal)] + rest;
    assert children[1..] == rest;
  }

  /** A `delayTime` that does not parse stops the parse: the delay and the
      disposal stay at their defaults, even if a later block would set them. */
  lemma UnparsableDelayKeepsDefaults(time: string, disposal: Option<string>, rest: seq<FrameNode>)
    requires ParseInt(time).None?
    ensures ParseFrameInfo(Some([GraphicControl(Some(time), disposal)] + rest)) == DEFAULT_INFO
  {
  }

  // ---------------------------------------------------------------------------
  // extractLogicalScreenDimensions and the canvas size

  datatype ScreenNode = LogicalScreen(width: Option<string>, height: Option<string>) | OtherScreenNode

  /** The first logical screen descriptor with two positive dimensions; a
      missing attribute or a dimension that does not parse gives up. */
  function ScreenDimensions(children: seq<ScreenNode>): (r: Option<(int, int)>)
    ensures r.Some? ==> r.value.0 > 0 && r.value.1 > 0
  {
    if children == [] then None
    else
      match children[0]
      case OtherScreenNode => ScreenDimensions(children[1..])
      case LogicalScreen(w, h) =>
        if w.None? || h.None? then None
        else
          match (ParseInt(w.value), ParseInt(h.value))
          case (Some(width), Some(height)) =>
            if width > 0 && height > 0 then Some((width, height)) else ScreenDimensions(children[1..])
          case _ => None
  }

  /** The canvas: frame 0's size, widened to the logical screen when that is
      known with both dimensions positive. */
  function CanvasSize(first: Picture, stream: Option<seq<ScreenNode>>): (r: (nat, nat))
    ensures r.0 >= first.width && r.1 >= first.height
    ensures stream.None? ==> r == (first.width, first.height)
    ensures stream.Some? && ScreenDimensions(stream.value).Some? ==>
      var dims := ScreenDimensions(stream.value).value;
      r.0 >= dims.0 && r.1 >= dims.1 && (r.0 == first.width || r.0 == dims.0) && (r.1 == first.height || r.1 == dims.1)
  {
    var dims := if stream.None? then None else ScreenDimensions(stream.value);
    match dims
    case None => (first.width, first.height)
    case Some(wh) => (if wh.0 > first.width then wh.0 else first.width, if wh.1 > first.height then wh.1 else first.height)
  }

  // ---------------------------------------------------------------------------
  // decode

  /** A frame as the reader returns it: the picture and its metadata tree. */
  datatype RawFrame = RawFrame(picture: Picture, metadata: Option<seq<FrameNode>>)

  /** The compositing loop's state between frames. */
  datatype Compositor = Compositor(canvas: Picture, snapshot: Option<Picture>, disposal: string, bounds: Option<Rect>)

  /** The snapshot, if any, has the canvas's size. */
  predicate SameSize(s: Compositor) {
    s.snapshot.None? || (s.snapshot.value.width == s.canvas.width && s.snapshot.value.height == s.canvas.height)
  }

  /** The previous frame's disposal, applied before the next frame is drawn:
      "restore to background" clears that frame's rectangle, "restore to
      previous" brings back the snapshot, and any other method leaves the
      canvas as it is. */
  function Dispose(s: Compositor): (r: Picture)
    ensures s.disposal == RESTORE_TO_BACKGROUND && s.bounds.Some? ==>
      && r.width == s.canvas.width && r.height == s.canvas.height
      && forall y, x :: 0 <= y < r.height && 0 <= x < r.width ==>
        r.rows[y][x] == (if s.bounds.value.Holds(x, y) then Clear else s.canvas.rows[y][x])
    ensures s.disposal == RESTORE_TO_PREVIOUS && s.snapshot.Some? ==> r == s.snapshot.value
    ensures s.disposal != RESTORE_TO_BACKGROUND && s.disposal != RESTORE_TO_PREVIOUS ==> r == s.canvas
    ensures SameSize(s) ==> r.width == s.canvas.width && r.height == s.canvas.height
  {
    if s.disposal == RESTORE_TO_BACKGROUND && s.bounds.Some? then ClearRect(s.canvas, s.bounds.value)
    else if s.disposal == RESTORE_TO_PREVIOUS && s.snapshot.Some? then s.snapshot.value
    else s.canvas
  }

  /** The canvas just before frame `i` is drawn, on top of which it is drawn. */
  function Prepared(s: Compositor, i: nat): Picture {
    if i > 0 then Dispose(s) else s.canvas
  }

  /** One iteration: dispose, snapshot if this frame restores to previous,
      draw, and remember this frame's disposal and rectangle. */
  function Step(s: Compositor, i: nat, frame: RawFrame): (r: Compositor)
    ensures SameSize(s) ==> SameSize(r) && r.canvas.width == s.canvas.width && r.canvas.height == s.canvas.height
    ensures r.disposal == ParseFrameInfo(frame.metadata).disposal
    ensures r.bounds == Some(Rect(ParseFrameInfo(frame.metadata).x, ParseFrameInfo(frame.metadata).y, frame.picture.width, frame.picture.height))
    ensures ParseFrameInfo(frame.metadata).disposal != RESTORE_TO_PREVIOUS ==> r.snapshot == s.snapshot
  {
    var info := ParseFrameInfo(frame.metadata);
    var before := Prepared(s, i);
    var snapshot := if info.disposal == RESTORE_TO_PREVIOUS then Some(before) else s.snapshot;
    Compositor(Draw(before, frame.picture, info.x, info.y), snapshot, info.disposal,
               Some(Rect(info.x, info.y, frame.picture.width, frame.picture.height)))
  }

  /** The state after the first `k` frames. */
  function StateAfter(start: Compositor, frames: seq<RawFrame>, k: nat): Compositor
    requires k <= |frames|
  {
    if k == 0 then start else Step(StateAfter(start, frames, k - 1), k - 1, frames[k - 1])
  }

  /** Compositing never changes the canvas's size. */
  lemma {:induction false} StateAfterKeepsSize(start: Compositor, frames: seq<RawFrame>, k: nat)
    requires k <= |frames| && SameSize(start)
    ensures SameSize(StateAfter(start, frames, k))
    ensures StateAfter(start, frames, k).canvas.width == start.canvas.width
    ensures StateAfter(start, frames, k).canvas.height == start.canvas.height
  {
    if k > 0 {
      StateAfterKeepsSize(start, frames, k - 1);
    }
  }

  /** The canvas kept for frame `k`, as large as the starting canvas. */
  function Composited(start: Compositor, frames: seq<RawFrame>, k: nat): (r: Picture)
    requires k < |frames|
    ensures SameSize(start) ==> r.width == start.canvas.width && r.height == start.canvas.height
  {
    if SameSize(start) then
      StateAfterKeepsSize(start, frames, k + 1);
      StateAfter(start, frames, k + 1).canvas
    else StateAfter(start, frames, k + 1).canvas
  }

  function Start(width: nat, height: nat): Compositor {
    Compositor(Blank(width, height), None, NO_DISPOSAL, None)
  }

  datatype GifData = GifData(frames: seq<Picture>, delays: seq<int>, width: int, height: int)

  /** `decode` on the unscaled path. */
  method Decode(readerAvailable: bool, frames: seq<RawFrame>, stream: Option<seq<ScreenNode>>)
    returns (r: Result<GifData>)
    ensures !readerAvailable ==> r.Failure?
    ensures frames == [] ==> r.Failure?
    ensures readerAvailable && frames != [] ==> r.Success?
    ensures r.Success? ==>
      var n := if |frames| < MAX_FRAMES then |frames| else MAX_FRAMES;
      var size := CanvasSize(frames[0].picture, stream);
      && |r.value.frames| == n && |r.value.delays| == n
      && r.value.width == size.0 && r.value.height == size.1
      && (forall k :: 0 <= k < n ==> r.value.frames[k] == Composited(Start(size.0, size.1), frames, k))
      && (forall k :: 0 <= k < n ==> r.value.delays[k] == ParseFrameInfo(frames[k].metadata).delay)
  {
    if !readerAvailable {
      return Failure("No GIF ImageReader available");
    }
    var n := if |frames| < MAX_FRAMES then |frames| else MAX_FRAMES;
    if n <= 0 {
      return Failure("GIF has no frames");
    }
    var size := CanvasSize(frames[0].picture, stream);
    var start := Start(size.0, size.1);
    var state := start;
    var out: seq<Picture> := [];
    var delays: seq<int> := [];
    var i := 0;
    while i < n
      invariant 0 <= i <= n
      invariant state == StateAfter(start, frames, i)
      invariant |out| == i && |delays| == i
      invariant forall k :: 0 <= k < i ==> out[k] == Composited(start, frames, k)
      invariant forall k :: 0 <= k < i ==> delays[k] == ParseFrameInfo(frames[k].metadata).delay
    {
      var info := ParseFrameInfo(frames[i].metadata);
      delays := delays + [info.delay];
      state := Step(state, i, frames[i]);
      out := out + [state.canvas];
      i := i + 1;
    }
    return Success(GifData(out, delays, size.0, size.1));
  }

  /** Every frame's delay is at least 20 ms. */
  lemma DelaysAtLeastMinimum(frames: seq<RawFrame>)
    ensures forall k :: 0 <= k < |frames| ==> ParseFrameInfo(frames[k].metadata).delay >= MIN_DELAY_MS
  {
  }

  /** Restore-to-background: the next frame is drawn on the previous canvas
      with the previous frame's rectangle cleared. */
  lemma RestoreToBackgroundClears(start: Compositor, frames: seq<RawFrame>, k: nat)
    requires 0 < k < |frames|
    requires ParseFrameInfo(frames[k - 1].metadata).disposal == RESTORE_TO_BACKGROUND
    ensures var info := ParseFrameInfo(frames[k - 1].metadata);
      var area := Rect(info.x, info.y, frames[k - 1].picture.width, frames[k - 1].picture.height);
      Prepared(StateAfter(start, frames, k), k) == ClearRect(StateAfter(start, frames, k).canvas, area)
  {
  }

  /** Restore-to-previous: the next frame is drawn on exactly the canvas the
      previous frame was drawn on. */
  lemma RestoreToPreviousRewinds(start: Compositor, frames: seq<RawFrame>, k: nat)
    requires 0 < k < |frames|
    requires ParseFrameInfo(frames[k - 1].metadata).disposal == RESTORE_TO_PREVIOUS
    ensures Prepared(StateAfter(start, frames, k), k) == Prepared(StateAfter(start, frames, k - 1), k - 1)
  {
    var s := StateAfter(start, frames, k);
    assert s == Step(StateAfter(start, frames, k - 1), k - 1, frames[k - 1]);
    assert s.snapshot == Some(Prepared(StateAfter(start, frames, k - 1), k - 1));
  }

  /** Any other disposal value, "none", "doNotDispose" or an unknown one,
      leaves the canvas as the previous frame left it. */
  lemma OtherDisposalKeepsCanvas(start: Compositor, frames: seq<RawFrame>, k: nat)
    requires 0 < k < |frames|
    requires ParseFrameInfo(frames[k - 1].metadata).disposal != RESTORE_TO_BACKGROUND
    requires ParseFrameInfo(frames[k - 1].metadata).disposal != RESTORE_TO_PREVIOUS
    ensures Prepared(StateAfter(start, frames, k), k) == Composited(start, frames, k - 1)
  {
  }

  /** `getTotalDuration`: the delays summed in `int` arithmetic. */
  method TotalDuration(delays: seq<int>) returns (total: int)
    requires forall k :: 0 <= k < |delays| ==> IsInt32(delays[k])
    ensures total == Wrap32(Sum(delays))
    ensures IsInt32(Sum(delays)) ==> total == Sum(delays)
  {
    total := 0;
    var i := 0;
    while i < |delays|
      invariant 0 <= i <= |delays|
      invariant total == Wrap32(Sum(delays[..i]))
    {
      SumSnoc(delays[..i], delays[i]);
      assert delays[..i + 1] == delays[..i] + [delays[i]];
      WrapAdd(Sum(delays[..i]), delays[i]);
      total := Wrap32(total + delays[i]);
      i := i + 1;
    }
    assert delays[..i] == delays;
  }
}
