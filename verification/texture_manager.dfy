/** The GPU texture lifecycle of image tooltips. A static image owns one
    texture, an animated GIF one texture per loaded frame; both caches keep
    insertion order so that the cache limit evicts the oldest entries.

    The game's texture manager is modelled by `live`: every texture this
    class registered and has not yet released, with the entry slot it was
    registered for. Work that the source hands to the render thread or to a
    background thread is returned as a `Task` and run later by `Run`, one
    task at a time, in any order a scheduler chooses. */
module ImageTextureManager {
  import opened Wrappers
  import opened JavaText
  import OM = OrderedMap
  import IR = ImageResult

  const MAX_TOTAL_TEXTURES: nat := 50
  const GIF_BATCH_SIZE: nat := 8
  /** At most half of the texture budget goes to the frames of one GIF. */
  const MAX_GIF_FRAMES: nat := MAX_TOTAL_TEXTURES / 2

  // ---------------------------------------------------------------------
  // Cache keys
  // ---------------------------------------------------------------------

  /** `getCacheKey`: the URL and the size limits it was scaled for. */
  function CacheKey(url: string, maxWidth: int, maxHeight: int): string {
    url + "@" + IntToString(maxWidth) + "x" + IntToString(maxHeight)
  }

  /** The index of the last `c` in `w`, or -1. */
  function LastIndexOf(w: string, c: char): int
    decreases |w|
  {
    if w == [] then -1
    else if w[|w| - 1] == c then |w| - 1
    else LastIndexOf(w[..|w| - 1], c)
  }

  lemma {:induction false} LastIndexOfSplit(p: string, c: char, s: string)
    requires c !in s
    ensures LastIndexOf(p + [c] + s, c) == |p|
    decreases |s|
  {
    var w := p + [c] + s;
    if s != [] {
      assert w[|w| - 1] == s[|s| - 1];
      assert w[..|w| - 1] == p + [c] + s[..|s| - 1];
      LastIndexOfSplit(p, c, s[..|s| - 1]);
    }
  }

  /** A string split at the last occurrence of `c` is split in one way only. */
  lemma SplitAtLast(p1: string, s1: string, p2: string, s2: string, c: char)
    requires c !in s1 && c !in s2
    requires p1 + [c] + s1 == p2 + [c] + s2
    ensures p1 == p2 && s1 == s2
  {
    var w := p1 + [c] + s1;
    LastIndexOfSplit(p1, c, s1);
    LastIndexOfSplit(p2, c, s2);
    assert p1 == w[..|p1|] && p2 == w[..|p2|];
    assert s1 == w[|p1| + 1..] && s2 == w[|p2| + 1..];
  }

  /** Different images or different size limits never share a key: the
      last `x` and the last `@` of a key separate its three parts, because
      a decimal number contains neither. */
  lemma CacheKeyInjective(u1: string, w1: int, h1: int, u2: string, w2: int, h2: int)
    requires IsInt32(w1) && IsInt32(h1) && IsInt32(w2) && IsInt32(h2)
    requires CacheKey(u1, w1, h1) == CacheKey(u2, w2, h2)
    ensures u1 == u2 && w1 == w2 && h1 == h2
  {
    var a1, b1, a2, b2 := IntToString(w1), IntToString(h1), IntToString(w2), IntToString(h2);
    assert 'x' !in b1 && 'x' !in b2 && '@' !in a1 && '@' !in a2 by {
      NoSeparator(b1); NoSeparator(b2); NoSeparator(a1); NoSeparator(a2);
    }
    assert (u1 + "@" + a1) + ['x'] + b1 == CacheKey(u1, w1, h1);
    assert (u2 + "@" + a2) + ['x'] + b2 == CacheKey(u2, w2, h2);
    SplitAtLast(u1 + "@" + a1, b1, u2 + "@" + a2, b2, 'x');
    assert u1 + ['@'] + a1 == u1 + "@" + a1;
    assert u2 + ['@'] + a2 == u2 + "@" + a2;
    SplitAtLast(u1, a1, u2, a2, '@');
    IntToStringInjective(w1, w2);
    IntToStringInjective(h1, h2);
  }

  lemma NoSeparator(s: string)
    requires forall i :: 0 <= i < |s| ==> IsDigit(s[i]) || s[i] == '-'
    ensures 'x' !in s && '@' !in s
  {
  }

  // ---------------------------------------------------------------------
  // Pixels
  // ---------------------------------------------------------------------

  function Alpha(p: bv32): bv32 { (p >> 24) & 0xFF }
  function Red(p: bv32): bv32 { (p >> 16) & 0xFF }
  function Green(p: bv32): bv32 { (p >> 8) & 0xFF }
  function Blue(p: bv32): bv32 { p & 0xFF }

  /** The per-pixel conversion of `prepareAndRegister`: ARGB to ABGR. */
  function ToAbgr(argb: bv32): bv32 {
    var a := (argb >> 24) & 0xFF;
    var r := (argb >> 16) & 0xFF;
    var g := (argb >> 8) & 0xFF;
    var b := argb & 0xFF;
    (a << 24) | (b << 16) | (g << 8) | r
  }

  /** The conversion keeps alpha and green and swaps red and blue. */
  lemma ToAbgrSwapsRedAndBlue(p: bv32)
    ensures Alpha(ToAbgr(p)) == Alpha(p) && Green(ToAbgr(p)) == Green(p)
    ensures Red(ToAbgr(p)) == Blue(p) && Blue(ToAbgr(p)) == Red(p)
  {
  }

  /** A pixel is determined by its four channels. */
  lemma ChannelsDetermine(p: bv32, q: bv32)
    requires Alpha(p) == Alpha(q) && Red(p) == Red(q) && Green(p) == Green(q) && Blue(p) == Blue(q)
    ensures p == q
  {
  }

  /** Converting twice gives the original pixel back. */
  lemma ToAbgrInvolution(p: bv32)
    ensures ToAbgr(ToAbgr(p)) == p
  {
    ToAbgrSwapsRedAndBlue(p);
    ToAbgrSwapsRedAndBlue(ToAbgr(p));
    ChannelsDetermine(ToAbgr(ToAbgr(p)), p);
  }

  /** A CPU-side image: decoded from PNG bytes, or filled from converted
      pixels in row-major order. */
  datatype NativeImage = Decoded(png: IR.Bytes) | Pixels(width: int, height: int, abgr: seq<bv32>)

  /** The pixel loop of `prepareAndRegister` over a `width` x `height`
      image. Reading past the end of the pixel array throws, which the
      caller catches, so the result is `None` then. */
  function ConvertPixels(argb: seq<bv32>, width: int, height: int): (r: Option<NativeImage>)
    ensures r.Some? <==> 0 < width && 0 < height && width * height <= |argb|
    ensures r.Some? ==> r.value.Pixels? && r.value.width == width && r.value.height == height
    ensures r.Some? ==> (|r.value.abgr| == width * height
      && forall i :: 0 <= i < |r.value.abgr| ==> argb[i] == ToAbgr(r.value.abgr[i]))
  {
    if 0 < width && 0 < height && width * height <= |argb| then
      var px := seq(width * height, i requires 0 <= i < width * height && i < |argb| => ToAbgr(argb[i]));
      assert forall i :: 0 <= i < |px| ==> argb[i] == ToAbgr(px[i]) by {
        forall i | 0 <= i < |px| ensures argb[i] == ToAbgr(px[i]) {
          ToAbgrInvolution(argb[i]);
        }
      }
      Some(Pixels(width, height, px))
    else
      None
  }

  // ---------------------------------------------------------------------
  // Frame truncation and batches
  // ---------------------------------------------------------------------

  /** The first `MAX_GIF_FRAMES` frames and delays of a longer animation.
      The delays are copied with `System.arraycopy`, which throws when
      there are fewer of them; the preparation then gives up (`None`). */
  function Truncate(frames: seq<IR.Bytes>, delays: seq<int>): (r: Option<(seq<IR.Bytes>, seq<int>)>)
    ensures |frames| <= MAX_GIF_FRAMES ==> r == Some((frames, delays))
    ensures |frames| > MAX_GIF_FRAMES ==> (r.Some? <==> |delays| >= MAX_GIF_FRAMES)
    ensures r.Some? ==> |r.value.0| == Min(|frames|, MAX_GIF_FRAMES) && r.value.0 <= frames
    ensures r.Some? ==> r.value.1 <= delays
    ensures r.Some? && |frames| > MAX_GIF_FRAMES ==> |r.value.1| == MAX_GIF_FRAMES
  {
    if |frames| <= MAX_GIF_FRAMES then Some((frames, delays))
    else if |delays| < MAX_GIF_FRAMES then None
    else Some((frames[..MAX_GIF_FRAMES], delays[..MAX_GIF_FRAMES]))
  }

  /** The end of the batch that starts at `start`. */
  function BatchEnd(start: nat, n: nat): (e: nat)
    requires start < n
    ensures start < e <= n && e - start <= GIF_BATCH_SIZE
  {
    Min(start + GIF_BATCH_SIZE, n)
  }

  /** The batches `[start, end)` in which frames `from..n` are decoded and
      registered: the first batch on the preparing thread, the rest by
      the background loop. */
  function Batches(from: nat, n: nat): seq<(nat, nat)>
    decreases n - from
  {
    if from >= n then [] else [(from, BatchEnd(from, n))] + Batches(BatchEnd(from, n), n)
  }

  /** Frame `i` falls in one of the batches. */
  ghost predicate Covered(bs: seq<(nat, nat)>, i: nat) {
    exists j :: 0 <= j < |bs| && bs[j].0 <= i < bs[j].1
  }

  /** The batches are non-empty, at most `GIF_BATCH_SIZE` long, follow one
      another without gap or overlap, and together cover `from..n`. */
  lemma {:induction false} BatchesPartition(from: nat, n: nat)
    requires from < n
    ensures var bs := Batches(from, n);
      && |bs| > 0 && bs[0].0 == from && bs[|bs| - 1].1 == n
      && (forall j :: 0 <= j < |bs| ==> bs[j].0 < bs[j].1 <= bs[j].0 + GIF_BATCH_SIZE)
      && (forall j :: 0 <= j < |bs| - 1 ==> bs[j].1 == bs[j + 1].0)
      && (forall i :: from <= i < n ==> Covered(bs, i))
    decreases n - from
  {
    var e := BatchEnd(from, n);
    var bs := Batches(from, n);
    if e < n {
      BatchesPartition(e, n);
      var rest := Batches(e, n);
      assert bs == [(from, e)] + rest;
      assert bs[|bs| - 1] == rest[|rest| - 1];
      forall j | 0 <= j < |bs| - 1 ensures bs[j].1 == bs[j + 1].0 {
        if j > 0 {
          assert bs[j] == rest[j - 1] && bs[j + 1] == rest[j];
        }
      }
      forall i | from <= i < n ensures Covered(bs, i) {
        if i < e {
          assert bs[0].0 <= i < bs[0].1;
        } else {
          assert Covered(rest, i);
          var j :| 0 <= j < |rest| && rest[j].0 <= i < rest[j].1;
          assert bs[j + 1] == rest[j];
        }
      }
    } else {
      assert bs == [(from, e)];
      forall i | from <= i < n ensures Covered(bs, i) {
        assert bs[0].0 <= i < bs[0].1;
      }
    }
  }

  // ---------------------------------------------------------------------
  // Textures and entries
  // ---------------------------------------------------------------------

  /** A registered texture: `cursedaddons:tooltip_images/<id>` or
      `cursedaddons:gif_frames/<id>`. Both kinds draw ids from one
      counter. */
  datatype Location = TooltipImage(id: nat) | GifFrame(id: nat)

  datatype StaticEntry = StaticEntry(location: Location, width: int, height: int)

  /** An animation. `frames` holds a slot per frame that is filled when the
      frame's texture is registered. `generation` tells apart the entries a
      key has had over time; it stands for the identity of the Java
      object. */
  datatype AnimatedEntry = AnimatedEntry(
    generation: nat,
    frames: seq<Option<Location>>,
    delays: seq<int>,
    width: int,
    height: int,
    startTime: int,
    totalDuration: int)

  /** The constructor: no frame loaded yet, and the delays summed with
      `int` wrap-around. */
  function NewEntry(generation: nat, n: nat, delays: seq<int>, width: int, height: int, now: int): (e: AnimatedEntry)
    ensures |e.frames| == n && forall i :: 0 <= i < n ==> e.frames[i].None?
    ensures e.totalDuration == Wrap32(Sum(delays)) && (IsInt32(Sum(delays)) ==> e.totalDuration == Sum(delays))
  {
    AnimatedEntry(generation, seq(n, _ => None), delays, width, height, now, Wrap32(Sum(delays)))
  }

  // ---------------------------------------------------------------------
  // Frame selection
  // ---------------------------------------------------------------------

  /** The sum of the first `j` delays. */
  function PrefixSum(delays: seq<int>, j: nat): int
    requires j <= |delays|
  {
    Sum(delays[..j])
  }

  lemma PrefixSumStep(delays: seq<int>, j: nat)
    requires j < |delays|
    ensures PrefixSum(delays, j + 1) == PrefixSum(delays, j) + delays[j]
  {
    assert delays[..j + 1] == delays[..j] + [delays[j]];
    SumSnoc(delays[..j], delays[j]);
  }

  /** The last loaded slot before `t`, or -1. */
  function LoadedBefore(slots: seq<Option<Location>>, t: int): (r: int)
    requires 0 <= t <= |slots|
    ensures -1 <= r < t
    ensures r >= 0 ==> slots[r].Some?
    ensures forall j :: r < j < t ==> slots[j].None?
    decreases t
  {
    if t == 0 then -1 else if slots[t - 1].Some? then t - 1 else LoadedBefore(slots, t - 1)
  }

  /** The first loaded slot after `t`, or `|slots|`. */
  function LoadedAfter(slots: seq<Option<Location>>, t: int): (r: int)
    requires -1 <= t < |slots|
    ensures t < r <= |slots|
    ensures r < |slots| ==> slots[r].Some?
    ensures forall j :: t < j < r ==> slots[j].None?
    decreases |slots| - t
  {
    if t + 1 == |slots| then |slots| else if slots[t + 1].Some? then t + 1 else LoadedAfter(slots, t + 1)
  }

  /** The frame `findNearestLoaded(t)` should show: `t` itself, else the
      nearest loaded frame before it, else the nearest one after it. */
  function Nearest(slots: seq<Option<Location>>, t: nat): Option<Location>
    requires t < |slots|
  {
    if slots[t].Some? then slots[t]
    else if LoadedBefore(slots, t) >= 0 then slots[LoadedBefore(slots, t)]
    else if LoadedAfter(slots, t) < |slots| then slots[LoadedAfter(slots, t)]
    else None
  }

  /** `findNearestLoaded`: the frame to draw while later frames are still
      being decoded. Nothing is found only when no frame is loaded. */
  method FindNearestLoaded(slots: seq<Option<Location>>, t: nat) returns (r: Option<Location>)
    requires t < |slots|
    ensures r == Nearest(slots, t)
    ensures r.None? <==> forall j :: 0 <= j < |slots| ==> slots[j].None?
    ensures r.Some? ==> exists j :: 0 <= j < |slots| && slots[j] == r
  {
    if slots[t].Some? {
      return slots[t];
    }
    var i := t - 1;
    while i >= 0
      invariant -1 <= i < t
      invariant forall j :: i < j < t ==> slots[j].None?
      decreases i
    {
      if slots[i].Some? {
        assert LoadedBefore(slots, t) == i by { BeforeIsLast(slots, t, i); }
        return slots[i];
      }
      i := i - 1;
    }
    assert LoadedBefore(slots, t) == -1 by { BeforeIsLast(slots, t, -1); }
    i := t + 1;
    while i < |slots|
      invariant t < i <= |slots|
      invariant forall j :: t < j < i ==> slots[j].None?
    {
      if slots[i].Some? {
        assert LoadedAfter(slots, t) == i by { AfterIsFirst(slots, t, i); }
        return slots[i];
      }
      i := i + 1;
    }
    assert LoadedAfter(slots, t) == |slots| by { AfterIsFirst(slots, t, |slots|); }
    return None;
  }

  lemma BeforeIsLast(slots: seq<Option<Location>>, t: nat, i: int)
    requires t <= |slots| && -1 <= i < t
    requires i >= 0 ==> slots[i].Some?
    requires forall j :: i < j < t ==> slots[j].None?
    ensures LoadedBefore(slots, t) == i
  {
  }

  lemma AfterIsFirst(slots: seq<Option<Location>>, t: int, i: int)
    requires -1 <= t < |slots| && t < i <= |slots|
    requires i < |slots| ==> slots[i].Some?
    requires forall j :: t < j < i ==> slots[j].None?
    ensures LoadedAfter(slots, t) == i
  {
  }

  /** Every running total of the first `n` delays fits in an `int`, so
      the source's accumulator never wraps. */
  ghost predicate NoOverflow(delays: seq<int>, n: nat)
    requires n <= |delays|
  {
    forall j :: 0 <= j <= n ==> IsInt32(PrefixSum(delays, j))
  }

  /** `getCurrentFrameLocation` at time `now`: the frame whose slice of the
      loop contains the elapsed time, or the nearest loaded one. The
      source indexes the delays by frame, so it needs at least as many
      delays as frames. */
  method CurrentFrame(e: AnimatedEntry, now: int) returns (r: Option<Location>)
    requires |e.delays| >= |e.frames|
    ensures |e.frames| == 0 ==> r.None?
    ensures |e.frames| > 0 && e.totalDuration <= 0 ==> r == Nearest(e.frames, 0)
    ensures |e.frames| > 0 && e.totalDuration > 0 ==>
      exists i :: 0 <= i < |e.frames| && r == Nearest(e.frames, i)
    ensures |e.frames| > 0 && e.totalDuration > 0 && NoOverflow(e.delays, |e.frames|) ==>
      var looped := JavaRem(now - e.startTime, e.totalDuration);
      exists i :: 0 <= i < |e.frames| && r == Nearest(e.frames, i)
        && (looped < PrefixSum(e.delays, i + 1) || i == |e.frames| - 1)
        && forall j :: 1 <= j <= i ==> PrefixSum(e.delays, j) <= looped
    ensures r.Some? <==> exists j :: 0 <= j < |e.frames| && e.frames[j].Some?
  {
    var n := |e.frames|;
    if n == 0 {
      return None;
    }
    if e.totalDuration <= 0 {
      r := FindNearestLoaded(e.frames, 0);
      return;
    }
    var looped := JavaRem(now - e.startTime, e.totalDuration);
    var acc := 0;
    var i := 0;
    while i < n
      invariant 0 <= i <= n
      invariant acc == Wrap32(PrefixSum(e.delays, i))
      invariant NoOverflow(e.delays, n) ==> forall j :: 1 <= j <= i ==> PrefixSum(e.delays, j) <= looped
    {
      PrefixSumStep(e.delays, i);
      WrapAdd(PrefixSum(e.delays, i), e.delays[i]);
      acc := Wrap32(acc + e.delays[i]);
      if looped < acc {
        r := FindNearestLoaded(e.frames, i);
        return;
      }
      i := i + 1;
    }
    r := FindNearestLoaded(e.frames, n - 1);
  }

  // ---------------------------------------------------------------------
  // The caches and the game's texture registry
  // ---------------------------------------------------------------------

  /** The entry slot a texture was registered for. */
  datatype Owner = StaticOf(key: string) | FrameOf(key: string, generation: nat, index: nat)

  /** The two caches, the textures registered with the game and not yet
      released, and the id and generation counters. */
  datatype Manager = Manager(
    statics: OM.Ordered<StaticEntry>,
    animated: OM.Ordered<AnimatedEntry>,
    live: map<Location, Owner>,
    nextId: nat,
    nextGeneration: nat)

  const INITIAL: Manager := Manager(OM.Empty(), OM.Empty(), map[], 0, 0)

  /** `hasTextures`. */
  predicate HasTextures(m: Manager, key: string) {
    key in m.statics.values || key in m.animated.values
  }

  /** Slot `o` of the caches holds texture `l`. */
  predicate Holds(m: Manager, o: Owner, l: Location) {
    match o
    case StaticOf(k) => k in m.statics.values && m.statics.values[k].location == l
    case FrameOf(k, g, i) =>
      && k in m.animated.values && m.animated.values[k].generation == g
      && i < |m.animated.values[k].frames| && m.animated.values[k].frames[i] == Some(l)
  }

  /** No texture leaks: every live texture is held by the slot it was
      registered for, and every filled slot holds a live texture registered
      for it. Releasing the cached entries then releases exactly the live
      textures. */
  ghost predicate Accounted(m: Manager) {
    && m.statics.Valid() && m.animated.Valid()
    && (forall l :: l in m.live ==> l.id < m.nextId && Holds(m, m.live[l], l))
    && (forall k :: k in m.statics.values ==>
          m.statics.values[k].location in m.live && m.live[m.statics.values[k].location] == StaticOf(k))
    && (forall k :: k in m.animated.values ==> m.animated.values[k].generation < m.nextGeneration)
    && (forall k, i ::
          (k in m.animated.values && 0 <= i < |m.animated.values[k].frames| && m.animated.values[k].frames[i].Some?) ==>
          m.animated.values[k].frames[i].value in m.live
          && m.live[m.animated.values[k].frames[i].value] == FrameOf(k, m.animated.values[k].generation, i))
  }

  lemma InitialAccounted()
    ensures Accounted(INITIAL)
  {
  }

  /** The textures held by the slots of an animation. */
  function FrameTextures(frames: seq<Option<Location>>): (r: set<Location>)
    ensures forall l :: l in r <==> exists i :: 0 <= i < |frames| && frames[i] == Some(l)
  {
    set i | 0 <= i < |frames| && frames[i].Some? :: frames[i].value
  }

  /** What a tooltip draws: the image's URL and the texture to show. */
  datatype ImageData = ImageData(url: string, location: Location, width: int, height: int)

  /** `getImageData`: the static texture when there is one, otherwise the
      animation's current frame, and nothing while no frame is loaded. */
  method GetImageData(m: Manager, key: string, url: string, now: int) returns (r: Option<ImageData>)
    requires key in m.animated.values ==> |m.animated.values[key].delays| >= |m.animated.values[key].frames|
    ensures key in m.statics.values ==> r == Some(ImageData(url, m.statics.values[key].location,
      m.statics.values[key].width, m.statics.values[key].height))
    ensures !HasTextures(m, key) ==> r.None?
    ensures key !in m.statics.values && key in m.animated.values ==>
      var e := m.animated.values[key];
      && (r.Some? <==> exists j :: 0 <= j < |e.frames| && e.frames[j].Some?)
      && (r.Some? ==> (r.value.url == url && r.value.width == e.width && r.value.height == e.height
            && exists j :: 0 <= j < |e.frames| && e.frames[j] == Some(r.value.location)))
  {
    if key in m.statics.values {
      var s := m.statics.values[key];
      return Some(ImageData(url, s.location, s.width, s.height));
    }
    if key in m.animated.values {
      var e := m.animated.values[key];
      var frame := CurrentFrame(e, now);
      if frame.Some? {
        return Some(ImageData(url, frame.value, e.width, e.height));
      }
    }
    return None;
  }

  /** Drops the static entry of `key` and releases its texture. */
  function RemoveStatic(m: Manager, key: string): (r: Manager)
    ensures key !in r.statics.values && r.animated == m.animated
    ensures forall k :: k != key ==> (k in r.statics.values <==> k in m.statics.values)
    ensures r.nextId == m.nextId && r.nextGeneration == m.nextGeneration
  {
    var released := if key in m.statics.values then {m.statics.values[key].location} else {};
    m.(statics := OM.Remove(m.statics, key), live := m.live - released)
  }

  /** Drops the animation of `key` and releases the textures of its loaded
      frames (`releaseAnimatedEntry`). */
  function RemoveAnimated(m: Manager, key: string): (r: Manager)
    ensures key !in r.animated.values && r.statics == m.statics
    ensures forall k :: k != key ==> (k in r.animated.values <==> k in m.animated.values)
    ensures r.nextId == m.nextId && r.nextGeneration == m.nextGeneration
  {
    var released := if key in m.animated.values then FrameTextures(m.animated.values[key].frames) else {};
    m.(animated := OM.Remove(m.animated, key), live := m.live - released)
  }

  /** Removing a static entry releases exactly the texture registered for
      it and keeps the accounting. */
  lemma RemoveStaticAccounted(m: Manager, key: string)
    ensures Accounted(m) ==> Accounted(RemoveStatic(m, key))
    ensures Accounted(m) ==> forall l :: l in m.live ==> (l in RemoveStatic(m, key).live <==> m.live[l] != StaticOf(key))
    ensures Accounted(m) ==> RemoveStatic(m, key).live.Keys <= m.live.Keys
    ensures Accounted(m) ==> forall l :: l in RemoveStatic(m, key).live ==> RemoveStatic(m, key).live[l] == m.live[l]
  {
    if Accounted(m) {
      var r := RemoveStatic(m, key);
      forall l | l in r.live ensures l.id < r.nextId && Holds(r, r.live[l], l) {
        assert Holds(m, m.live[l], l);
      }
    }
  }

  /** Removing an animation releases exactly the textures registered for
      its frames and keeps the accounting. */
  lemma RemoveAnimatedAccounted(m: Manager, key: string)
    ensures Accounted(m) ==> Accounted(RemoveAnimated(m, key))
    ensures Accounted(m) ==> forall l :: l in m.live ==>
      (l in RemoveAnimated(m, key).live <==> !(m.live[l].FrameOf? && m.live[l].key == key))
    ensures Accounted(m) ==> RemoveAnimated(m, key).live.Keys <= m.live.Keys
    ensures Accounted(m) ==> forall l :: l in RemoveAnimated(m, key).live ==> RemoveAnimated(m, key).live[l] == m.live[l]
  {
    if Accounted(m) {
      var r := RemoveAnimated(m, key);
      forall l | l in m.live
        ensures l in r.live <==> !(m.live[l].FrameOf? && m.live[l].key == key)
      {
        assert Holds(m, m.live[l], l);
        if m.live[l].FrameOf? && m.live[l].key == key {
          assert l in FrameTextures(m.animated.values[key].frames);
        }
      }
      forall l | l in r.live ensures l.id < r.nextId && Holds(r, r.live[l], l) {
        assert Holds(m, m.live[l], l);
      }
    }
  }

  /** `removeTexture`: both entries of the key go, with their textures. */
  function RemoveTexture(m: Manager, key: string): (r: Manager)
    ensures !HasTextures(r, key)
    ensures forall k :: k != key ==> (HasTextures(r, k) <==> HasTextures(m, k))
  {
    RemoveAnimated(RemoveStatic(m, key), key)
  }

  /** Removing a key releases exactly the textures registered for its
      entries. */
  lemma RemoveTextureReleases(m: Manager, key: string)
    ensures Accounted(m) ==> Accounted(RemoveTexture(m, key))
    ensures Accounted(m) ==> forall l :: l in m.live ==> (l in RemoveTexture(m, key).live <==> m.live[l].key != key)
  {
    if Accounted(m) {
      RemoveStaticAccounted(m, key);
      RemoveAnimatedAccounted(RemoveStatic(m, key), key);
    }
  }

  /** Every texture the caches hold. */
  function HeldTextures(m: Manager): set<Location> {
    (set k | k in m.statics.values :: m.statics.values[k].location)
    + (set k, l | k in m.animated.values && l in FrameTextures(m.animated.values[k].frames) :: l)
  }

  /** `clear`: both caches emptied and every texture they hold released. */
  function Clear(m: Manager): (r: Manager)
    ensures r.statics.order == [] && r.animated.order == []
    ensures r.live.Keys <= m.live.Keys
  {
    Manager(OM.Empty(), OM.Empty(), m.live - HeldTextures(m), m.nextId, m.nextGeneration)
  }

  /** After `clear` nothing this class registered is still live. */
  lemma ClearReleasesAll(m: Manager)
    ensures Accounted(m) ==> Clear(m).live == map[]
    ensures Accounted(m) ==> Accounted(Clear(m))
  {
    if Accounted(m) {
      forall l | l in m.live ensures l in HeldTextures(m) {
        var o := m.live[l];
        assert Holds(m, o, l);
        if o.FrameOf? {
          assert l in FrameTextures(m.animated.values[o.key].frames);
        }
      }
    }
  }

  // ---------------------------------------------------------------------
  // The cache limit
  // ---------------------------------------------------------------------

  /** Loaded slots, as `getTotalTextureCount` counts them. */
  function LoadedCount(frames: seq<Option<Location>>): nat {
    if frames == [] then 0 else (if frames[0].Some? then 1 else 0) + LoadedCount(frames[1..])
  }

  function AnimatedCount(order: seq<string>, values: map<string, AnimatedEntry>): nat {
    if order == [] then 0
    else (if order[0] in values then LoadedCount(values[order[0]].frames) else 0) + AnimatedCount(order[1..], values)
  }

  /** `getTotalTextureCount`. */
  function TextureCount(m: Manager): nat {
    |m.statics.values| + AnimatedCount(m.animated.order, m.animated.values)
  }

  /** `enforceCacheLimit`: while over the limit, drop the oldest static
      entry, or, when there is none, the oldest animation. */
  function EnforceLimit(m: Manager): (r: Manager)
    ensures r.nextId == m.nextId && r.nextGeneration == m.nextGeneration
    ensures TextureCount(m) <= MAX_TOTAL_TEXTURES ==> r == m
    ensures m.statics.Valid() && m.animated.Valid() ==> TextureCount(r) <= MAX_TOTAL_TEXTURES
    decreases |m.statics.order| + |m.animated.order|
  {
    if TextureCount(m) <= MAX_TOTAL_TEXTURES then m
    else if m.statics.order != [] then EnforceLimit(RemoveStatic(m, m.statics.order[0]))
    else if m.animated.order != [] then EnforceLimit(RemoveAnimated(m, m.animated.order[0]))
    else
      assert m.statics.Valid() && m.animated.Valid() ==> m.statics.values == map[] && m.animated.values == map[];
      m
  }

  /** `b` ends with `a`. */
  predicate IsSuffix(a: seq<string>, b: seq<string>) {
    |a| <= |b| && a == b[|b| - |a|..]
  }

  lemma SuffixOfTail(a: seq<string>, b: seq<string>)
    requires b != [] && IsSuffix(a, b[1..])
    ensures IsSuffix(a, b)
  {
    assert b[1..][|b| - 1 - |a|..] == b[|b| - |a|..];
  }

  /** The limit keeps the accounting, evicts oldest first and statics
      before animations, and leaves the surviving entries as they were. */
  lemma {:induction false} EnforceLimitEvictsOldest(m: Manager)
    ensures Accounted(m) ==> var r := EnforceLimit(m);
      && Accounted(r)
      && IsSuffix(r.statics.order, m.statics.order)
      && IsSuffix(r.animated.order, m.animated.order)
      && (r.animated.order != m.animated.order ==> r.statics.order == [])
      && (forall k :: k in r.statics.values ==> k in m.statics.values && r.statics.values[k] == m.statics.values[k])
      && (forall k :: k in r.animated.values ==> k in m.animated.values && r.animated.values[k] == m.animated.values[k])
      && r.live.Keys <= m.live.Keys
    decreases |m.statics.order| + |m.animated.order|
  {
    if Accounted(m) {
      if TextureCount(m) <= MAX_TOTAL_TEXTURES {
      } else if m.statics.order != [] {
        var next := RemoveStatic(m, m.statics.order[0]);
        RemoveStaticAccounted(m, m.statics.order[0]);
        OM.DropOldest(m.statics);
        EnforceLimitEvictsOldest(next);
        SuffixOfTail(EnforceLimit(next).statics.order, m.statics.order);
      } else if m.animated.order != [] {
        var next := RemoveAnimated(m, m.animated.order[0]);
        RemoveAnimatedAccounted(m, m.animated.order[0]);
        OM.DropOldest(m.animated);
        EnforceLimitEvictsOldest(next);
        SuffixOfTail(EnforceLimit(next).animated.order, m.animated.order);
      }
    }
  }

  // ---------------------------------------------------------------------
  // Registration
  // ---------------------------------------------------------------------

  /** `registerStaticTexture`: a fresh id, a texture registered for the
      key's new static entry. */
  function RegisterStatic(m: Manager, key: string, width: int, height: int): (r: Manager)
    ensures key in r.statics.values && r.statics.values[key] == StaticEntry(TooltipImage(m.nextId), width, height)
    ensures r.live == m.live[TooltipImage(m.nextId) := StaticOf(key)]
    ensures r.nextId == m.nextId + 1 && r.animated == m.animated
  {
    var loc := TooltipImage(m.nextId);
    m.(statics := OM.Put(m.statics, key, StaticEntry(loc, width, height)),
       live := m.live[loc := StaticOf(key)],
       nextId := m.nextId + 1)
  }

  lemma RegisterStaticAccounted(m: Manager, key: string, width: int, height: int)
    requires key !in m.statics.values
    ensures Accounted(m) ==> Accounted(RegisterStatic(m, key, width, height))
  {
    if Accounted(m) {
      var r := RegisterStatic(m, key, width, height);
      var loc := TooltipImage(m.nextId);
      assert loc !in m.live;
      forall l | l in r.live ensures l.id < r.nextId && Holds(r, r.live[l], l) {
        if l != loc {
          assert Holds(m, m.live[l], l);
        }
      }
    }
  }

  /** The entry a batch was prepared for is still the cached one. */
  predicate Current(m: Manager, key: string, generation: nat) {
    key in m.animated.values && m.animated.values[key].generation == generation
  }

  /** Fills slot `index` of an animation with a new texture. */
  function FillSlot(m: Manager, key: string, index: nat, loc: Location): (r: Manager)
    requires key in m.animated.values && index < |m.animated.values[key].frames|
    ensures key in r.animated.values && r.animated.values == m.animated.values[key := r.animated.values[key]]
    ensures r.animated.values[key].frames == m.animated.values[key].frames[index := Some(loc)]
    ensures r.animated.values[key].generation == m.animated.values[key].generation
    ensures r.animated.order == m.animated.order && r.statics == m.statics && r.live == m.live
  {
    var e := m.animated.values[key];
    m.(animated := OM.Put(m.animated, key, e.(frames := e.frames[index := Some(loc)])))
  }

  /** Registers the decoded frame `index` of the batch of generation
      `generation`: only into the entry the batch belongs to, and only into
      an empty slot; otherwise the image is closed and nothing changes. */
  function RegisterFrame(m: Manager, key: string, generation: nat, index: nat): (r: Manager)
    ensures r.nextId == m.nextId || r.nextId == m.nextId + 1
    ensures r.nextId == m.nextId + 1 <==>
      Current(m, key, generation) && index < |m.animated.values[key].frames| && m.animated.values[key].frames[index].None?
    ensures r.nextId == m.nextId + 1 ==> (key in r.animated.values && index < |r.animated.values[key].frames|
      && r.animated.values[key].frames[index] == Some(GifFrame(m.nextId)))
    ensures r.nextId == m.nextId ==> r == m
  {
    if Current(m, key, generation) && index < |m.animated.values[key].frames|
      && m.animated.values[key].frames[index].None?
    then
      var loc := GifFrame(m.nextId);
      FillSlot(m, key, index, loc).(live := m.live[loc := FrameOf(key, generation, index)], nextId := m.nextId + 1)
    else
      m
  }

  lemma RegisterFrameAccounted(m: Manager, key: string, generation: nat, index: nat)
    ensures Accounted(m) ==> Accounted(RegisterFrame(m, key, generation, index))
  {
    if Accounted(m) {
      var r := RegisterFrame(m, key, generation, index);
      if r != m {
        var loc := GifFrame(m.nextId);
        assert loc !in m.live;
        forall l | l in r.live ensures l.id < r.nextId && Holds(r, r.live[l], l) {
          if l != loc {
            assert Holds(m, m.live[l], l);
          }
        }
        forall k, i | k in r.animated.values && 0 <= i < |r.animated.values[k].frames| && r.animated.values[k].frames[i].Some?
          ensures r.animated.values[k].frames[i].value in r.live
          ensures r.live[r.animated.values[k].frames[i].value] == FrameOf(k, r.animated.values[k].generation, i)
        {
          if !(k == key && i == index) {
            assert r.animated.values[k].frames[i] == m.animated.values[k].frames[i];
            assert m.animated.values[k].frames[i].value != loc;
          }
        }
      }
    }
  }

  /** The frames `start..start + count` of a batch, registered in order. */
  function RegisterBatch(m: Manager, key: string, generation: nat, start: nat, count: nat): (r: Manager)
    ensures m.nextId <= r.nextId <= m.nextId + count
    decreases count
  {
    if count == 0 then m
    else RegisterBatch(RegisterFrame(m, key, generation, start), key, generation, start + 1, count - 1)
  }

  lemma {:induction false} RegisterBatchAccounted(m: Manager, key: string, generation: nat, start: nat, count: nat)
    ensures Accounted(m) ==> Accounted(RegisterBatch(m, key, generation, start, count))
    decreases count
  {
    if Accounted(m) {
      if count > 0 {
        RegisterFrameAccounted(m, key, generation, start);
        RegisterBatchAccounted(RegisterFrame(m, key, generation, start), key, generation, start + 1, count - 1);
      }
    }
  }

  /** A batch whose entry has gone registers nothing: every image is
      closed. */
  lemma {:induction false} StaleBatchRegistersNothing(m: Manager, key: string, generation: nat, start: nat, count: nat)
    requires !Current(m, key, generation)
    ensures RegisterBatch(m, key, generation, start, count) == m
    decreases count
  {
    if count > 0 {
      StaleBatchRegistersNothing(m, key, generation, start + 1, count - 1);
    }
  }

  /** Into empty slots of the current entry, a batch registers one texture
      per frame, with consecutive fresh ids. */
  lemma {:induction false} BatchFillsSlots(m: Manager, key: string, generation: nat, start: nat, count: nat)
    requires Current(m, key, generation)
    requires start + count <= |m.animated.values[key].frames|
    requires forall i :: start <= i < start + count ==> m.animated.values[key].frames[i].None?
    ensures var r := RegisterBatch(m, key, generation, start, count);
      && r.nextId == m.nextId + count && Current(r, key, generation)
      && |r.animated.values[key].frames| == |m.animated.values[key].frames|
      && forall i :: start <= i < start + count ==> r.animated.values[key].frames[i] == Some(GifFrame(m.nextId + i - start))
    decreases count
  {
    if count > 0 {
      var m1 := RegisterFrame(m, key, generation, start);
      assert m1.animated.values[key].frames == m.animated.values[key].frames[start := Some(GifFrame(m.nextId))];
      BatchFillsSlots(m1, key, generation, start + 1, count - 1);
      var r := RegisterBatch(m1, key, generation, start + 1, count - 1);
      assert r.animated.values[key].frames[start] == Some(GifFrame(m.nextId)) by {
        BatchKeepsOtherSlots(m1, key, generation, start + 1, count - 1, start);
      }
    }
  }

  /** A batch leaves the slots outside its range alone. */
  lemma {:induction false} BatchKeepsOtherSlots(m: Manager, key: string, generation: nat, start: nat, count: nat, j: nat)
    requires key in m.animated.values && j < |m.animated.values[key].frames|
    requires j < start || start + count <= j
    ensures var r := RegisterBatch(m, key, generation, start, count);
      key in r.animated.values && j < |r.animated.values[key].frames|
      && r.animated.values[key].frames[j] == m.animated.values[key].frames[j]
    decreases count
  {
    if count > 0 {
      var m1 := RegisterFrame(m, key, generation, start);
      BatchKeepsOtherSlots(m1, key, generation, start + 1, count - 1, j);
    }
  }

  // ---------------------------------------------------------------------
  // Preparation and the task flow
  // ---------------------------------------------------------------------

  /** Whether `NativeImage.read` accepts some PNG bytes. */
  type Decoder = IR.Bytes -> bool

  /** Work handed to the render thread (`Minecraft.execute`) or to a
      background thread (`CompletableFuture.runAsync`). */
  datatype Task =
    | RegisterStaticTask(key: string, image: NativeImage, width: int, height: int)
    | RegisterBatchTask(key: string, generation: nat, start: nat, images: seq<NativeImage>)
    | DecodeRestTask(key: string, generation: nat, frames: seq<IR.Bytes>, start: nat)
    | EnforceLimitTask
    | RemoveTextureTask(key: string)

  /** The decoding half of `registerFrameBatch`: every frame of
      `start..end` is read, or, when one fails, the batch is closed and the
      failure reported (`None`). */
  function DecodeBatch(frames: seq<IR.Bytes>, start: nat, end: nat, decode: Decoder): (r: Option<seq<NativeImage>>)
    requires start <= end <= |frames|
    ensures r.Some? <==> forall i :: start <= i < end ==> decode(frames[i])
    ensures r.Some? ==> (|r.value| == end - start
      && forall i :: 0 <= i < |r.value| ==> r.value[i] == Decoded(frames[start + i]))
  {
    if forall i | start <= i < end :: decode(frames[i]) then
      Some(seq(end - start, i requires 0 <= i < end - start => Decoded(frames[start + i])))
    else
      None
  }

  /** `prepareAndRegisterAnimated`: the entry is cached at once with no
      frame loaded, the first batch is decoded on the calling thread, and
      the rest is left to a background loop. A failing first batch takes
      the entry out again. */
  function PrepareAnimated(m: Manager, key: string, frames: seq<IR.Bytes>, delays: seq<int>,
                           width: int, height: int, now: int, decode: Decoder): (r: (Manager, seq<Task>))
    ensures Truncate(frames, delays).None? ==> r == (m, [])
    ensures r.1 != [] ==> (Truncate(frames, delays).Some? && Current(r.0, key, m.nextGeneration)
      && r.0.animated.values[key] == NewEntry(m.nextGeneration, |Truncate(frames, delays).value.0|,
           Truncate(frames, delays).value.1, width, height, now)
      && r.1[0].RegisterBatchTask? && r.1[0].start == 0 && r.1[|r.1| - 1] == EnforceLimitTask)
    ensures r.1 == [] ==> key !in r.0.animated.values || key in m.animated.values
  {
    match Truncate(frames, delays)
    case None => (m, [])
    case Some(td) =>
      var fs := td.0;
      var n := |fs|;
      var g := m.nextGeneration;
      var m1 := m.(animated := OM.Put(m.animated, key, NewEntry(g, n, td.1, width, height, now)), nextGeneration := g + 1);
      var first := Min(GIF_BATCH_SIZE, n);
      match DecodeBatch(fs, 0, first, decode)
      case None => (RemoveAnimated(m1, key), [])
      case Some(images) =>
        (m1, [RegisterBatchTask(key, g, 0, images)]
             + (if first < n then [DecodeRestTask(key, g, fs, first)] else [])
             + [EnforceLimitTask])
  }

  /** `prepareAndRegister`: nothing for a key that already has textures;
      otherwise an animation, raw pixels or PNG bytes are turned into
      images and their registration handed to the render thread. Any
      exception on the way is caught and ends the preparation. */
  function PrepareAndRegister(m: Manager, key: string, loaded: IR.Image, now: int, decode: Decoder): (r: (Manager, seq<Task>))
    ensures HasTextures(m, key) ==> r == (m, [])
    ensures !loaded.IsAnimated() ==> r.0 == m && |r.1| <= 1
    ensures !loaded.IsAnimated() && r.1 != [] ==>
      r.1[0].RegisterStaticTask? && r.1[0].key == key && r.1[0].width == loaded.width && r.1[0].height == loaded.height
    ensures !HasTextures(m, key) && !loaded.IsAnimated() && loaded.HasRawPixels() ==>
      (r.1 != [] <==> ConvertPixels(loaded.rawArgb.value, loaded.width, loaded.height).Some?)
    ensures !HasTextures(m, key) && !loaded.IsAnimated() && !loaded.HasRawPixels() ==>
      (r.1 != [] <==> loaded.staticPng.Some? && decode(loaded.staticPng.value))
  {
    if HasTextures(m, key) then (m, [])
    else if loaded.IsAnimated() then
      if loaded.gifDelays.None? then (m, [])
      else PrepareAnimated(m, key, loaded.gifFrames.value, loaded.gifDelays.value, loaded.width, loaded.height, now, decode)
    else if loaded.HasRawPixels() then
      match ConvertPixels(loaded.rawArgb.value, loaded.width, loaded.height)
      case None => (m, [])
      case Some(image) => (m, [RegisterStaticTask(key, image, loaded.width, loaded.height)])
    else if loaded.staticPng.None? || !decode(loaded.staticPng.value) then (m, [])
    else (m, [RegisterStaticTask(key, Decoded(loaded.staticPng.value), loaded.width, loaded.height)])
  }

  /** One task, as the corrected program runs it. A batch registers only
      into the entry it was prepared for, and the background loop stops
      as soon as that entry is no longer cached. */
  function Run(m: Manager, t: Task, decode: Decoder): (r: (Manager, seq<Task>))
    ensures t.RegisterBatchTask? && !Current(m, t.key, t.generation) ==> r == (m, [])
    ensures t.DecodeRestTask? && !Current(m, t.key, t.generation) ==> r == (m, [])
    ensures t.DecodeRestTask? ==> (r.0 == m && |r.1| <= 2
      && forall j :: 0 <= j < |r.1| ==>
           (r.1[j].RegisterBatchTask? || r.1[j].DecodeRestTask?) && r.1[j].key == t.key && r.1[j].generation == t.generation)
    ensures t.RegisterStaticTask? && HasTextures(m, t.key) ==> r == (m, [])
    ensures t.RemoveTextureTask? ==> !HasTextures(r.0, t.key)
  {
    match t
    case RegisterStaticTask(key, _, width, height) =>
      if HasTextures(m, key) then (m, []) else (EnforceLimit(RegisterStatic(m, key, width, height)), [])
    case RegisterBatchTask(key, generation, start, images) =>
      if !Current(m, key, generation) then (m, [])
      else (RegisterBatch(m, key, generation, start, |images|), [])
    case DecodeRestTask(key, generation, frames, start) =>
      if !Current(m, key, generation) || start >= |frames| then (m, [])
      else
        var end := BatchEnd(start, |frames|);
        (match DecodeBatch(frames, start, end, decode)
         case None => (m, [])
         case Some(images) =>
           (m, [RegisterBatchTask(key, generation, start, images)]
               + (if end < |frames| then [DecodeRestTask(key, generation, frames, end)] else [])))
    case EnforceLimitTask => (EnforceLimit(m), [])
    case RemoveTextureTask(key) => (RemoveTexture(m, key), [])
  }

  /** Caching a new animation with no frame loaded keeps the accounting. */
  lemma AddEntryAccounted(m: Manager, key: string, e: AnimatedEntry)
    requires key !in m.animated.values
    requires e.generation == m.nextGeneration && forall i :: 0 <= i < |e.frames| ==> e.frames[i].None?
    ensures Accounted(m) ==> Accounted(m.(animated := OM.Put(m.animated, key, e), nextGeneration := m.nextGeneration + 1))
  {
    if Accounted(m) {
      var m1 := m.(animated := OM.Put(m.animated, key, e), nextGeneration := m.nextGeneration + 1);
      forall l | l in m1.live ensures l.id < m1.nextId && Holds(m1, m1.live[l], l) {
        assert Holds(m, m.live[l], l);
      }
    }
  }

  lemma PrepareAnimatedAccounted(m: Manager, key: string, frames: seq<IR.Bytes>, delays: seq<int>,
                                 width: int, height: int, now: int, decode: Decoder)
    requires key !in m.animated.values
    ensures Accounted(m) ==> Accounted(PrepareAnimated(m, key, frames, delays, width, height, now, decode).0)
  {
    if Accounted(m) {
      var td := Truncate(frames, delays);
      if td.Some? {
        var e := NewEntry(m.nextGeneration, |td.value.0|, td.value.1, width, height, now);
        AddEntryAccounted(m, key, e);
        var m1 := m.(animated := OM.Put(m.animated, key, e), nextGeneration := m.nextGeneration + 1);
        var r := PrepareAnimated(m, key, frames, delays, width, height, now, decode).0;
        if DecodeBatch(td.value.0, 0, Min(GIF_BATCH_SIZE, |td.value.0|), decode).None? {
          assert r == RemoveAnimated(m1, key);
          RemoveAnimatedAccounted(m1, key);
        } else {
          assert r == m1;
        }
      }
    }
  }

  lemma PrepareAccounted(m: Manager, key: string, loaded: IR.Image, now: int, decode: Decoder)
    ensures Accounted(m) ==> Accounted(PrepareAndRegister(m, key, loaded, now, decode).0)
  {
    if Accounted(m) {
      if !HasTextures(m, key) && loaded.IsAnimated() && loaded.gifDelays.Some? {
        PrepareAnimatedAccounted(m, key, loaded.gifFrames.value, loaded.gifDelays.value, loaded.width, loaded.height, now, decode);
      }
    }
  }

  /** Every task of the corrected program keeps the accounting: no texture
      is ever registered that no cached entry holds. */
  lemma RunAccounted(m: Manager, t: Task, decode: Decoder)
    ensures Accounted(m) ==> Accounted(Run(m, t, decode).0)
  {
    if Accounted(m) {
      match t
      case RegisterStaticTask(key, _, width, height) =>
        if !HasTextures(m, key) {
          RegisterStaticAccounted(m, key, width, height);
          EnforceLimitEvictsOldest(RegisterStatic(m, key, width, height));
        }
      case RegisterBatchTask(key, generation, start, images) =>
        RegisterBatchAccounted(m, key, generation, start, |images|);
      case DecodeRestTask(_, _, _, _) =>
      case EnforceLimitTask => EnforceLimitEvictsOldest(m);
      case RemoveTextureTask(key) => RemoveTextureReleases(m, key);
    }
  }

  // ---------------------------------------------------------------------
  // The source's batch callback and background loop
  // ---------------------------------------------------------------------

  /** The per-frame step of the source's batch callback: a texture is
      registered whatever entry the key now has, and written into the
      frame array the batch was prepared with. When that entry is no
      longer cached the array is unreachable and the texture is never
      released. */
  function RegisterFrameAsWritten(m: Manager, key: string, generation: nat, index: nat): (r: Manager)
    ensures r.nextId == m.nextId + 1 && r.live == m.live[GifFrame(m.nextId) := FrameOf(key, generation, index)]
    ensures !Current(m, key, generation) ==> r.animated == m.animated && r.statics == m.statics
  {
    var loc := GifFrame(m.nextId);
    var m1 := m.(live := m.live[loc := FrameOf(key, generation, index)], nextId := m.nextId + 1);
    if Current(m, key, generation) && index < |m.animated.values[key].frames| then FillSlot(m1, key, index, loc) else m1
  }

  function RegisterBatchAsWritten(m: Manager, key: string, generation: nat, start: nat, count: nat): (r: Manager)
    ensures r.nextId == m.nextId + count
    decreases count
  {
    if count == 0 then m
    else RegisterBatchAsWritten(RegisterFrameAsWritten(m, key, generation, start), key, generation, start + 1, count - 1)
  }

  /** One task as the source runs it: the batch callback and the
      background loop only ask whether the key is cached, not whether its
      entry is still the one they were prepared for. */
  function RunAsWritten(m: Manager, t: Task, decode: Decoder): (r: (Manager, seq<Task>))
    ensures t.RegisterBatchTask? && t.key !in m.animated.values ==> r == (m, [])
    ensures t.RegisterBatchTask? && t.key in m.animated.values ==> r.0.nextId == m.nextId + |t.images|
    ensures !t.RegisterBatchTask? && !t.DecodeRestTask? ==> r == Run(m, t, decode)
  {
    match t
    case RegisterBatchTask(key, generation, start, images) =>
      if key !in m.animated.values then (m, [])
      else (RegisterBatchAsWritten(m, key, generation, start, |images|), [])
    case DecodeRestTask(key, generation, frames, start) =>
      if key !in m.animated.values || start >= |frames| then (m, [])
      else
        var end := BatchEnd(start, |frames|);
        (match DecodeBatch(frames, start, end, decode)
         case None => (m, [])
         case Some(images) =>
           (m, [RegisterBatchTask(key, generation, start, images)]
               + (if end < |frames| then [DecodeRestTask(key, generation, frames, end)] else [])))
    case _ => Run(m, t, decode)
  }

  /** Preparing a two-frame GIF whose frames decode caches an empty entry
      of the next generation and hands one batch of both frames, then the
      cache limit, to the render thread. */
  lemma PrepareTwoFrames(m: Manager, key: string, f: IR.Bytes, now: int, decode: Decoder)
    requires !HasTextures(m, key) && decode(f)
    ensures PrepareAndRegister(m, key, IR.OfGif([f, f], [100, 100], 16, 16), now, decode)
      == (m.(animated := OM.Put(m.animated, key, NewEntry(m.nextGeneration, 2, [100, 100], 16, 16, now)),
             nextGeneration := m.nextGeneration + 1),
          [RegisterBatchTask(key, m.nextGeneration, 0, [Decoded(f), Decoded(f)]), EnforceLimitTask])
  {
    var fs := [f, f];
    assert Truncate(fs, [100, 100]) == Some((fs, [100, 100]));
    var batch := DecodeBatch(fs, 0, 2, decode);
    assert forall i :: 0 <= i < 2 ==> decode(fs[i]);
    assert batch.Some? && batch.value[0] == Decoded(f) && batch.value[1] == Decoded(f);
    assert batch.value == [Decoded(f), Decoded(f)];
    var gif := IR.OfGif(fs, [100, 100], 16, 16);
    assert gif.IsAnimated() && gif.gifFrames.value == fs && gif.gifDelays.value == [100, 100];
    assert PrepareAndRegister(m, key, gif, now, decode) == PrepareAnimated(m, key, fs, [100, 100], 16, 16, now, decode);
    assert Min(GIF_BATCH_SIZE, 2) == 2;
    var tasks: seq<Task> := [RegisterBatchTask(key, m.nextGeneration, 0, [Decoded(f), Decoded(f)])];
    assert tasks + [] + [EnforceLimitTask] == [RegisterBatchTask(key, m.nextGeneration, 0, [Decoded(f), Decoded(f)]), EnforceLimitTask];
    assert PrepareAnimated(m, key, fs, [100, 100], 16, 16, now, decode).1 == tasks + [] + [EnforceLimitTask];
  }

  /** A two-frame GIF is prepared, its key is removed (an eviction), and
      the GIF is prepared again before the first preparation's batch
      callback runs. As written, that callback sees the key cached and
      registers two textures into the dropped entry's frame array: they
      stay live after `clear`. The corrected callback closes the images
      instead. */
  lemma AsWrittenLeaksTextures(key: string, f: IR.Bytes, decode: Decoder)
    requires decode(f)
    ensures var gif := IR.OfGif([f, f], [100, 100], 16, 16);
      var first := PrepareAndRegister(INITIAL, key, gif, 0, decode);
      var again := PrepareAndRegister(RemoveTexture(first.0, key), key, gif, 500, decode);
      && |first.1| > 0 && first.1[0].RegisterBatchTask?
      && Accounted(again.0)
      && !Accounted(RunAsWritten(again.0, first.1[0], decode).0)
      && GifFrame(0) in Clear(RunAsWritten(again.0, first.1[0], decode).0).live
      && GifFrame(1) in Clear(RunAsWritten(again.0, first.1[0], decode).0).live
      && Run(again.0, first.1[0], decode).0 == again.0
  {
    var gif := IR.OfGif([f, f], [100, 100], 16, 16);
    InitialAccounted();
    PrepareTwoFrames(INITIAL, key, f, 0, decode);
    var first := PrepareAndRegister(INITIAL, key, gif, 0, decode);
    var task := first.1[0];
    assert task == RegisterBatchTask(key, 0, 0, [Decoded(f), Decoded(f)]);
    PrepareAccounted(INITIAL, key, gif, 0, decode);
    RemoveTextureReleases(first.0, key);
    var removed := RemoveTexture(first.0, key);
    assert removed.live == map[] && removed.nextId == 0 && removed.nextGeneration == 1;
    PrepareTwoFrames(removed, key, f, 500, decode);
    PrepareAccounted(removed, key, gif, 500, decode);
    var again := PrepareAndRegister(removed, key, gif, 500, decode);
    assert again.0.animated.values[key].generation == 1 && again.0.live == map[] && again.0.nextId == 0;
    LeakAfterRegeneration(again.0, key, f, decode);
  }

  /** The stale batch of generation 0 meets the entry of generation 1. */
  lemma LeakAfterRegeneration(m: Manager, key: string, f: IR.Bytes, decode: Decoder)
    requires Current(m, key, 1) && m.live == map[] && m.nextId == 0
    ensures Accounted(m) ==> var leaked := RunAsWritten(m, RegisterBatchTask(key, 0, 0, [Decoded(f), Decoded(f)]), decode).0;
      && !Accounted(leaked)
      && GifFrame(0) in Clear(leaked).live && GifFrame(1) in Clear(leaked).live
    ensures Run(m, RegisterBatchTask(key, 0, 0, [Decoded(f), Decoded(f)]), decode).0 == m
  {
    if Accounted(m) {
      var m1 := RegisterFrameAsWritten(m, key, 0, 0);
      var leaked := RegisterFrameAsWritten(m1, key, 0, 1);
      assert leaked == RegisterBatchAsWritten(m, key, 0, 0, 2);
      assert leaked.animated == m.animated && leaked.statics == m.statics;
      assert leaked.live == map[GifFrame(0) := FrameOf(key, 0, 0), GifFrame(1) := FrameOf(key, 0, 1)];
      assert !Holds(leaked, leaked.live[GifFrame(0)], GifFrame(0));
      HeldIsLive(m);
      assert HeldTextures(leaked) == HeldTextures(m);
    }
  }

  /** Every texture the caches hold is live. */
  lemma HeldIsLive(m: Manager)
    ensures Accounted(m) ==> forall l :: l in HeldTextures(m) ==> l in m.live
  {
    if Accounted(m) {
      forall l | l in HeldTextures(m) ensures l in m.live {
        if l !in (set k | k in m.statics.values :: m.statics.values[k].location) {
          var k, i :| k in m.animated.values && 0 <= i < |m.animated.values[k].frames| && m.animated.values[k].frames[i] == Some(l);
        }
      }
    }
  }
}
