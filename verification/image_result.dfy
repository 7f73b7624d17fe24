/** A loaded image: a static picture, as encoded PNG bytes or as raw ARGB
    pixels, or an animation, as one encoded PNG per frame with a delay per
    frame. Exactly one payload is present; the other two are null. */
module ImageResult {
  import opened Wrappers

  type Bytes = seq<bv8>

  datatype Image = Image(
    staticPng: Option<Bytes>,
    rawArgb: Option<seq<bv32>>,
    gifFrames: Option<seq<Bytes>>,
    gifDelays: Option<seq<int>>,
    width: int,
    height: int)
  {
    /** `isAnimated`: GIF frame data with more than one frame. A result is
        animated exactly when it holds GIF data and counts more than one
        frame. */
    predicate IsAnimated(): (b: bool)
      ensures b <==> gifFrames.Some? && FrameCount() > 1
    {
      gifFrames.Some? && |gifFrames.value| > 1
    }

    predicate HasRawPixels() {
      rawArgb.Some?
    }

    /** `getFrameCount`: one for a static image, the number of GIF frames
        otherwise. */
    function FrameCount(): (n: nat)
      ensures gifFrames.None? ==> n == 1
      ensures gifFrames.Some? ==> n == |gifFrames.value|
    {
      if gifFrames.Some? then |gifFrames.value| else 1
    }
  }

  /** `ofStatic`. */
  function OfStatic(png: Bytes, width: int, height: int): (r: Image)
    ensures r.staticPng == Some(png) && r.rawArgb.None? && r.gifFrames.None? && r.gifDelays.None?
    ensures r.width == width && r.height == height
  {
    Image(Some(png), None, None, None, width, height)
  }

  /** `ofStaticRaw`. */
  function OfStaticRaw(argb: seq<bv32>, width: int, height: int): (r: Image)
    ensures r.rawArgb == Some(argb) && r.staticPng.None? && r.gifFrames.None? && r.gifDelays.None?
    ensures r.width == width && r.height == height
  {
    Image(None, Some(argb), None, None, width, height)
  }

  /** `ofGif`. */
  function OfGif(frames: seq<Bytes>, delays: seq<int>, width: int, height: int): (r: Image)
    ensures r.gifFrames == Some(frames) && r.gifDelays == Some(delays) && r.staticPng.None? && r.rawArgb.None?
    ensures r.width == width && r.height == height
  {
    Image(None, None, Some(frames), Some(delays), width, height)
  }

  /** A result is built by one of the three factories. */
  ghost predicate Built(r: Image) {
    || (exists png: Bytes :: r == OfStatic(png, r.width, r.height))
    || (exists argb: seq<bv32> :: r == OfStaticRaw(argb, r.width, r.height))
    || (exists frames: seq<Bytes>, delays: seq<int> :: r == OfGif(frames, delays, r.width, r.height))
  }

  /** What the observers report for each factory: only an animation with
      more than one frame is animated, only `ofStaticRaw` has raw pixels, and
      a static image counts as one frame. */
  lemma FactoryObservers(png: Bytes, argb: seq<bv32>, frames: seq<Bytes>, delays: seq<int>, w: int, h: int)
    ensures !OfStatic(png, w, h).IsAnimated() && !OfStatic(png, w, h).HasRawPixels() && OfStatic(png, w, h).FrameCount() == 1
    ensures !OfStaticRaw(argb, w, h).IsAnimated() && OfStaticRaw(argb, w, h).HasRawPixels() && OfStaticRaw(argb, w, h).FrameCount() == 1
    ensures OfGif(frames, delays, w, h).IsAnimated() <==> |frames| > 1
    ensures !OfGif(frames, delays, w, h).HasRawPixels()
    ensures OfGif(frames, delays, w, h).FrameCount() == |frames|
  {
  }

  /** For a built result, raw pixels identify `ofStaticRaw` and animation
      identifies a GIF of at least two frames. */
  lemma ObserversIdentifyFactory(r: Image)
    requires Built(r)
    ensures r.HasRawPixels() <==> exists argb: seq<bv32> :: r == OfStaticRaw(argb, r.width, r.height)
    ensures r.IsAnimated() ==> r.gifFrames.Some? && r.FrameCount() >= 2 && r.staticPng.None? && r.rawArgb.None?
  {
    if r.HasRawPixels() {
      assert r == OfStaticRaw(r.rawArgb.value, r.width, r.height);
    }
  }

  /** A single-frame GIF is not animated. */
  lemma SingleFrameGifIsStill(frame: Bytes, delay: int, w: int, h: int)
    ensures !OfGif([frame], [delay], w, h).IsAnimated()
    ensures OfGif([frame], [delay], w, h).FrameCount() == 1
  {
  }
}
