/** The image download cache: results by cache key in an access-ordered
    LRU of ten entries, at most one download in flight per key, and a
    thirty-second cooldown after a failed download. Downloads are checked
    (no private addresses, status 200 only, a size limit) and read through
    a stream that refuses to read past the limit.

    The download itself runs on a background thread; here it is split in
    two steps, `LoadImage`, which decides whether to start one, and
    `Settle`, which records its outcome. */
module ImageCache {
  import opened Wrappers
  import opened JavaText
  import ConfigValue
  import ConfigKeys
  import CP = ConfigProvider
  import OM = OrderedMap
  import IR = ImageResult
  import TM = ImageTextureManager

  const MAX_CACHE_SIZE: nat := 10
  const RETRY_DELAY_MS: int := 30_000
  const DEFAULT_MAX_FILE_SIZE_MB: int := 30
  const MB: int := 1024 * 1024

  // ---------------------------------------------------------------------
  // The size limit
  // ---------------------------------------------------------------------

  /** `Number.intValue()` of an integral config number: out-of-range
      values saturate, as a `Double` does. */
  function IntValue(n: int): (r: int)
    ensures IsInt32(r)
    ensures IsInt32(n) ==> r == n
  {
    if n < INT_MIN then INT_MIN else if n > INT_MAX then INT_MAX else n
  }

  /** The configured limit in megabytes; anything but a number means 30. */
  function ConfiguredMb(p: CP.Provider): int {
    var v := CP.Get(p, ConfigKeys.IMAGE_MAX_FILE_SIZE_MB);
    if v.Num? then IntValue(v.n) else DEFAULT_MAX_FILE_SIZE_MB
  }

  /** `getMaxContentLength` as the source computes it: in `int`
      arithmetic, which wraps once the limit reaches 2048 MB. */
  function MaxContentLengthAsWritten(p: CP.Provider): (r: int)
    ensures IsInt32(r)
    ensures ConfiguredMb(p) < 2048 ==> r == Max(ConfiguredMb(p), 1) * MB
  {
    Wrap32(Max(ConfiguredMb(p), 1) * MB)
  }

  /** `getMaxContentLength` in `long` arithmetic: the configured number of
      megabytes, at least one. */
  function MaxContentLength(p: CP.Provider): (r: int)
    ensures r >= MB && r % MB == 0
    ensures ConfiguredMb(p) >= 1 ==> r / MB == ConfiguredMb(p)
    ensures ConfiguredMb(p) < 2048 ==> r == MaxContentLengthAsWritten(p)
  {
    Max(ConfiguredMb(p), 1) * MB
  }

  // ---------------------------------------------------------------------
  // Response checks and the bounded stream
  // ---------------------------------------------------------------------

  /** What the server answered: the status code and the advertised
      `Content-Length` (-1 when unknown). */
  datatype Response = Response(status: int, contentLength: int)

  /** The byte stream handed to the image decoder: it has read `bytesRead`
      of at most `maxBytes` bytes. */
  datatype Bounded = Bounded(maxBytes: int, bytesRead: int)

  /** `openConnectionWithTimeouts` once the host is looked up: a loopback,
      site-local or link-local address is refused before any connection,
      then anything but status 200 (redirects included) and any advertised
      length over the limit. */
  function Open(blocked: bool, response: Response, limit: int): (r: Result<Bounded>)
    ensures blocked ==> r == Failure("Blocked address")
    ensures r.Success? <==> !blocked && response.status == 200 && response.contentLength <= limit
    ensures r.Success? ==> r.value == Bounded(limit, 0)
    ensures !blocked && response.status != 200 ==> r == Failure("HTTP " + IntToString(response.status))
  {
    if blocked then Failure("Blocked address")
    else if 300 <= response.status < 400 then Failure("HTTP " + IntToString(response.status))
    else if response.status != 200 then Failure("HTTP " + IntToString(response.status))
    else if response.contentLength > limit then
      Failure("File too large (" + IntToString(JavaDiv(JavaDiv(response.contentLength, 1024), 1024)) + "MB / "
        + IntToString(JavaDiv(JavaDiv(limit, 1024), 1024)) + "MB max)")
    else Success(Bounded(limit, 0))
  }

  /** The message of the exception a read past the limit throws. */
  function ExceededMessage(maxBytes: int): string {
    "File too large (exceeded " + IntToString(JavaDiv(JavaDiv(maxBytes, 1024), 1024)) + "MB limit)"
  }

  /** `read()`: the delegate's answer `b` is a byte, or -1 at the end. */
  function ReadByte(s: Bounded, b: int): (r: Result<Bounded>)
    requires -1 <= b <= 255
    ensures r.Failure? <==> s.bytesRead >= s.maxBytes
    ensures r.Failure? ==> r.error == ExceededMessage(s.maxBytes)
    ensures r.Success? ==> (r.value.maxBytes == s.maxBytes
      && r.value.bytesRead == s.bytesRead + (if b >= 0 then 1 else 0)
      && r.value.bytesRead <= r.value.maxBytes)
  {
    if s.bytesRead >= s.maxBytes then Failure(ExceededMessage(s.maxBytes))
    else Success(s.(bytesRead := if b >= 0 then s.bytesRead + 1 else s.bytesRead))
  }

  /** How many bytes `read(buf, off, len)` asks the delegate for. */
  function ToRead(s: Bounded, len: nat): int {
    Min(len, s.maxBytes - s.bytesRead)
  }

  /** `read(buf, off, len)`: the delegate answers `n`, the number of bytes
      it delivered (at most what it was asked for), or -1 at the end. */
  function ReadBulk(s: Bounded, len: nat, n: int): (r: Result<Bounded>)
    requires s.bytesRead < s.maxBytes ==> -1 <= n <= ToRead(s, len)
    ensures r.Failure? <==> s.bytesRead >= s.maxBytes
    ensures r.Failure? ==> r.error == ExceededMessage(s.maxBytes)
    ensures r.Success? ==> (r.value.maxBytes == s.maxBytes
      && r.value.bytesRead == s.bytesRead + Max(n, 0)
      && r.value.bytesRead <= r.value.maxBytes)
  {
    if s.bytesRead >= s.maxBytes then Failure(ExceededMessage(s.maxBytes))
    else Success(s.(bytesRead := if n > 0 then s.bytesRead + n else s.bytesRead))
  }

  /** Reading a body of `body` more bytes to its end in reads of `chunk`
      bytes: the bytes read in total, or the failure. */
  function ReadToEnd(s: Bounded, body: nat, chunk: nat): (r: Result<int>)
    requires chunk > 0
    decreases body
  {
    if s.bytesRead >= s.maxBytes then Failure(ExceededMessage(s.maxBytes))
    else
      var n := if body == 0 then -1 else Min(ToRead(s, chunk), body);
      match ReadBulk(s, chunk, n)
      case Failure(e) => Failure(e)
      case Success(next) => if n < 0 then Success(next.bytesRead) else ReadToEnd(next, body - n, chunk)
  }

  /** A body is read to its end exactly when it is shorter than the limit:
      a body of exactly `maxBytes` bytes fails when the end is probed. */
  lemma {:induction false} ReadToEndIffShorter(s: Bounded, body: nat, chunk: nat)
    requires chunk > 0 && s.bytesRead <= s.maxBytes
    ensures ReadToEnd(s, body, chunk).Success? <==> s.bytesRead + body < s.maxBytes
    ensures ReadToEnd(s, body, chunk).Success? ==> ReadToEnd(s, body, chunk).value == s.bytesRead + body
    decreases body
  {
    if s.bytesRead < s.maxBytes && body > 0 {
      var n := Min(ToRead(s, chunk), body);
      ReadToEndIffShorter(s.(bytesRead := s.bytesRead + n), body - n, chunk);
    }
  }

  /** The body of a download whose limit is `maxBytes`. */
  lemma ExactLimitFails(maxBytes: nat, chunk: nat)
    requires chunk > 0
    ensures ReadToEnd(Bounded(maxBytes, 0), maxBytes, chunk).Failure?
    ensures maxBytes > 0 ==> ReadToEnd(Bounded(maxBytes, 0), maxBytes - 1, chunk) == Success(maxBytes - 1)
  {
    ReadToEndIffShorter(Bounded(maxBytes, 0), maxBytes, chunk);
    if maxBytes > 0 {
      ReadToEndIffShorter(Bounded(maxBytes, 0), maxBytes - 1, chunk);
    }
  }

  /** As written, a limit of 2048 MB wraps to `Integer.MIN_VALUE`, and every
      answer of the server is refused: the advertised length is at least
      -1, which exceeds the limit. */
  lemma WrappedLimitRefusesEverything(p: CP.Provider, response: Response)
    requires ConfiguredMb(p) == 2048
    requires IsInt32(response.contentLength) && response.contentLength >= -1
    ensures MaxContentLengthAsWritten(p) == INT_MIN
    ensures Open(false, response, MaxContentLengthAsWritten(p)).Failure?
  {
  }

  /** With the limit computed in `long`, a successful answer with unknown
      length opens a stream that can read one byte. */
  lemma LimitAdmitsUnknownLength(p: CP.Provider)
    ensures Open(false, Response(200, -1), MaxContentLength(p)).Success?
    ensures ReadByte(Open(false, Response(200, -1), MaxContentLength(p)).value, 0).Success?
  {
  }

  // ---------------------------------------------------------------------
  // URLs
  // ---------------------------------------------------------------------

  /** The part of `s` before its first `?`: all of `s` when it has none. */
  function BeforeQuery(s: string): (r: string)
    ensures r <= s && '?' !in r
    ensures |r| < |s| ==> s[|r|] == '?'
  {
    if s == [] || s[0] == '?' then [] else [s[0]] + BeforeQuery(s[1..])
  }

  /** `isGifUrl`: the lower-cased URL, cut at its first `?`, ends with
      `.gif`. A `#` fragment is not cut. Lower-casing first and cutting
      afterwards is the same as cutting the URL itself. */
  predicate IsGifUrl(url: string): (b: bool)
    ensures b <==> EndsWith(ToLower(BeforeQuery(url)), ".gif")
  {
    var lower := ToLower(url);
    var q := IndexOfFrom(lower, "?", 0);
    CutThenLower(url);
    var path := if q >= 0 then lower[..q] else lower;
    EndsWith(path, ".gif")
  }

  /** Cutting the lower-cased URL at its first `?` gives the lower-cased
      cut URL. */
  lemma CutThenLower(url: string)
    ensures var lower := ToLower(url);
      var q := IndexOfFrom(lower, "?", 0);
      (if q >= 0 then lower[..q] else lower) == ToLower(BeforeQuery(url))
  {
    var lower := ToLower(url);
    var q := IndexOfFrom(lower, "?", 0);
    var cut := BeforeQuery(url);
    QuestionMarkIndex(lower, q);
    LowerKeepsQuestionMarks(url);
    assert forall i :: 0 <= i < |cut| ==> cut[i] == url[i];
    if q >= 0 {
      assert |cut| == q;
      assert lower[..q] == ToLower(cut);
    } else {
      assert |cut| == |url|;
      assert lower == ToLower(cut);
    }
  }

  /** The first `?` of `s`, as `indexOf` finds it. */
  lemma QuestionMarkIndex(s: string, q: int)
    requires q == IndexOfFrom(s, "?", 0)
    ensures q >= 0 ==> q < |s| && s[q] == '?'
    ensures forall i :: 0 <= i < |s| && (q < 0 || i < q) ==> s[i] != '?'
  {
    if q >= 0 {
      assert OccursAt(s, "?", q);
      assert s[q..q + 1] == "?";
    }
    forall i | 0 <= i < |s| && (q < 0 || i < q) ensures s[i] != '?' {
      assert !OccursAt(s, "?", i);
      assert s[i..i + 1] == [s[i]];
    }
  }

  /** Lower-casing neither makes nor removes a `?`. */
  lemma LowerKeepsQuestionMarks(s: string)
    ensures forall i :: 0 <= i < |s| ==> (ToLower(s)[i] == '?' <==> s[i] == '?')
  {
  }

  /** A query string never decides: a URL without `?` is a GIF URL with
      any query appended exactly when it is one without. */
  lemma QueryIsIgnored(url: string, query: string)
    requires '?' !in url
    ensures IsGifUrl(url + "?" + query) == IsGifUrl(url)
  {
    var full := url + "?" + query;
    var lower := ToLower(full);
    var q := IndexOfFrom(lower, "?", 0);
    QuestionMarkIndex(lower, q);
    LowerKeepsQuestionMarks(full);
    LowerKeepsQuestionMarks(url);
    assert full[|url|] == '?';
    assert forall i :: 0 <= i < |url| ==> full[i] == url[i];
    assert q == |url|;
    assert lower[..q] == ToLower(url);
    QuestionMarkIndex(ToLower(url), IndexOfFrom(ToLower(url), "?", 0));
  }

  /** Without a query, a URL is a GIF URL exactly when its lower-cased form
      ends with `.gif`: case does not matter. */
  lemma GifUrlIgnoresCase(url: string)
    requires '?' !in url
    ensures IsGifUrl(url) <==> EndsWith(ToLower(url), ".gif")
  {
    LowerKeepsQuestionMarks(url);
    QuestionMarkIndex(ToLower(url), IndexOfFrom(ToLower(url), "?", 0));
  }

  /** A fragment after `.gif` hides it. */
  lemma FragmentIsNotCut()
    ensures !IsGifUrl("a.gif#x")
  {
    var s := "a.gif#x";
    LowerKeepsQuestionMarks(s);
    QuestionMarkIndex(ToLower(s), IndexOfFrom(ToLower(s), "?", 0));
    assert ToLower(s)[6] == LowerChar('x') == 'x';
  }

  // ---------------------------------------------------------------------
  // The download
  // ---------------------------------------------------------------------

  /** The URL to download: an embed page on a host that resolves embeds is
      first resolved, and the resolved URL must be whitelisted too. */
  function LoadUrl(url: string, resolveEmbeds: bool, needsResolution: bool, resolved: Option<string>,
                   whitelisted: string -> bool): (r: Result<string>)
    ensures !(resolveEmbeds && needsResolution) ==> r == Success(url)
    ensures resolveEmbeds && needsResolution ==>
      (r.Success? <==> resolved.Some? && whitelisted(resolved.value))
      && (r.Success? ==> r.value == resolved.value)
      && (resolved.None? ==> r == Failure("Failed to resolve embed URL"))
  {
    if resolveEmbeds && needsResolution then
      match resolved
      case None => Failure("Failed to resolve embed URL")
      case Some(u) => if !whitelisted(u) then Failure("Domain not whitelisted") else Success(u)
    else Success(url)
  }

  /** `loadGif` once the frames are decoded: no frame is an error, a
      single frame is a static PNG, more make an animation. */
  function GifResult(frames: seq<IR.Bytes>, delays: seq<int>, width: int, height: int): (r: Result<IR.Image>)
    ensures r.Failure? <==> frames == []
    ensures r.Success? ==> r.value.width == width && r.value.height == height
    ensures r.Success? ==> (r.value.IsAnimated() <==> |frames| > 1)
    ensures r.Success? && |frames| == 1 ==> r.value.staticPng == Some(frames[0])
    ensures r.Success? && |frames| > 1 ==> r.value.gifFrames == Some(frames) && r.value.gifDelays == Some(delays)
  {
    if frames == [] then Failure("GIF has no frames")
    else if |frames| == 1 then Success(IR.OfStatic(frames[0], width, height))
    else Success(IR.OfGif(frames, delays, width, height))
  }

  /** A decoded static image: its ARGB pixels and size. */
  datatype Pixels = Pixels(argb: seq<bv32>, width: int, height: int)

  /** A decoded GIF: its encoded frames, delays and canvas size. */
  datatype Frames = Frames(frames: seq<IR.Bytes>, delays: seq<int>, width: int, height: int)

  /** The body of the background download: pick the URL, then decode it
      as a GIF when its path ends with `.gif` and as a static image
      otherwise. Fetching and decoding are the oracles `fetchStatic` and
      `fetchGif`. */
  function Download(url: string, resolveEmbeds: bool, needsResolution: bool, resolved: Option<string>,
                    whitelisted: string -> bool,
                    fetchStatic: string -> Result<Pixels>, fetchGif: string -> Result<Frames>): (r: Result<IR.Image>)
    ensures LoadUrl(url, resolveEmbeds, needsResolution, resolved, whitelisted).Failure? ==> r.Failure?
    ensures r.Success? && !IsGifUrl(LoadUrl(url, resolveEmbeds, needsResolution, resolved, whitelisted).value) ==>
      r.value.HasRawPixels() && !r.value.IsAnimated()
  {
    match LoadUrl(url, resolveEmbeds, needsResolution, resolved, whitelisted)
    case Failure(e) => Failure(e)
    case Success(u) =>
      if IsGifUrl(u) then
        match fetchGif(u)
        case Failure(e) => Failure(e)
        case Success(g) => GifResult(g.frames, g.delays, g.width, g.height)
      else
        match fetchStatic(u)
        case Failure(e) => Failure(e)
        case Success(px) => Success(IR.OfStaticRaw(px.argb, px.width, px.height))
  }

  // ---------------------------------------------------------------------
  // The cache state
  // ---------------------------------------------------------------------

  datatype FailureEntry = FailureEntry(timestamp: int, reason: string)

  /** The results in access order, the keys with a download in flight, and
      the recent failures. */
  datatype Cache = Cache(results: OM.Ordered<IR.Image>, loading: set<string>, failed: map<string, FailureEntry>)

  const EMPTY: Cache := Cache(OM.Empty(), {}, map[])

  /** The cache's representation invariant and its capacity. */
  ghost predicate Valid(c: Cache) {
    c.results.Valid() && |c.results.order| <= MAX_CACHE_SIZE
  }

  /** A failure younger than the retry delay. */
  predicate RecentFailure(c: Cache, key: string, now: int) {
    key in c.failed && now - c.failed[key].timestamp < RETRY_DELAY_MS
  }

  /** What `loadImage` hands back: a finished future (`null` or a cached
      result), or the future of the download in flight for the key. */
  datatype Answer = Ready(image: Option<IR.Image>) | Pending(key: string)

  /** `loadImage`: a recent failure answers `null` at once; an older one
      is forgotten. A cached result is returned and becomes the most
      recent. Otherwise the download in flight is shared, or a new one is
      started (`started`). */
  function LoadImage(c: Cache, url: string, maxWidth: int, maxHeight: int, now: int): (r: (Cache, Answer, bool))
    ensures var key := TM.CacheKey(url, maxWidth, maxHeight);
      && (RecentFailure(c, key, now) ==> r == (c, Ready(None), false))
      && (!RecentFailure(c, key, now) && key in c.results.values ==>
            r.1 == Ready(Some(c.results.values[key])) && !r.2
            && r.0.results == OM.Touch(c.results, key))
      && (r.2 <==> !RecentFailure(c, key, now) && key !in c.results.values && key !in c.loading)
      && (r.1.Pending? ==> r.1.key == key && key in r.0.loading)
      && (key !in r.0.failed || RecentFailure(c, key, now))
      && r.0.loading == c.loading + (if r.2 then {key} else {})
      && r.0.results.values == c.results.values
  {
    var key := TM.CacheKey(url, maxWidth, maxHeight);
    if RecentFailure(c, key, now) then (c, Ready(None), false)
    else
      var c1 := c.(failed := c.failed - {key});
      if key in c1.results.values then
        (c1.(results := OM.Touch(c1.results, key)), Ready(Some(c1.results.values[key])), false)
      else if key in c1.loading then (c1, Pending(key), false)
      else (c1.(loading := c1.loading + {key}), Pending(key), true)
  }

  /** `removeEldestEntry` after a `put`: over capacity, the least recently
      used key goes, and its textures are to be removed. */
  function Evict(results: OM.Ordered<IR.Image>): (r: (OM.Ordered<IR.Image>, seq<TM.Task>))
    ensures |results.order| <= MAX_CACHE_SIZE ==> r == (results, [])
    ensures |results.order| > MAX_CACHE_SIZE ==>
      r.0 == OM.Remove(results, results.order[0]) && r.1 == [TM.RemoveTextureTask(results.order[0])]
  {
    if |results.order| > MAX_CACHE_SIZE then
      (OM.Remove(results, results.order[0]), [TM.RemoveTextureTask(results.order[0])])
    else (results, [])
  }

  /** The end of a download for `key`: a result is stored as the most
      recent entry, possibly evicting the least recent one; a failure is
      recorded with its time and message and stores nothing. Either way the
      key is no longer in flight. */
  function Settle(c: Cache, key: string, outcome: Result<IR.Image>, now: int): (r: (Cache, seq<TM.Task>))
    ensures key !in r.0.loading && r.0.loading == c.loading - {key}
    ensures outcome.Success? ==> (key in r.0.results.values && r.0.results.values[key] == outcome.value
      && r.0.failed == c.failed)
    ensures outcome.Failure? ==> r == (c.(loading := c.loading - {key},
      failed := c.failed[key := FailureEntry(now, outcome.error)]), [])
  {
    match outcome
    case Failure(e) => (c.(loading := c.loading - {key}, failed := c.failed[key := FailureEntry(now, e)]), [])
    case Success(loaded) =>
      var put := OM.PutLast(c.results, key, loaded);
      var ev := Evict(put);
      assert put.order[|put.order| - 1] == key;
      assert |put.order| > MAX_CACHE_SIZE ==> put.order[0] != key by {
        if |put.order| > MAX_CACHE_SIZE && c.results.Valid() {
        }
      }
      (c.(results := ev.0, loading := c.loading - {key}), ev.1)
  }

  /** Storing a loaded image keeps the capacity, and an eviction removes exactly
      the least recently used other key and schedules the removal of its
      textures. */
  lemma SettleKeepsCapacity(c: Cache, key: string, loaded: IR.Image, now: int)
    requires Valid(c)
    ensures var r := Settle(c, key, Success(loaded), now);
      && Valid(r.0)
      && key in r.0.results.values && r.0.results.order[|r.0.results.order| - 1] == key
      && |r.1| <= 1
      && (r.1 != [] ==> var evicted := r.1[0].key;
            && r.1[0].RemoveTextureTask? && evicted != key && evicted in c.results.values
            && evicted !in r.0.results.values
            && evicted == OM.Without(c.results.order, key)[0])
      && (r.1 == [] ==> r.0.results.values.Keys == c.results.values.Keys + {key})
  {
    var put := OM.PutLast(c.results, key, loaded);
    if |put.order| > MAX_CACHE_SIZE {
      SettleEvicting(c, key, loaded, now);
    } else {
      var r := Settle(c, key, Success(loaded), now);
      assert r.0.results == put && r.1 == [];
    }
  }

  /** The eviction case of `SettleKeepsCapacity`. */
  lemma SettleEvicting(c: Cache, key: string, loaded: IR.Image, now: int)
    requires Valid(c)
    ensures |OM.PutLast(c.results, key, loaded).order| > MAX_CACHE_SIZE ==>
      var r := Settle(c, key, Success(loaded), now);
      && Valid(r.0) && r.0.results.order[|r.0.results.order| - 1] == key
      && r.1 == [TM.RemoveTextureTask(OM.Without(c.results.order, key)[0])]
      && OM.Without(c.results.order, key)[0] != key && OM.Without(c.results.order, key)[0] in c.results.values
      && OM.Without(c.results.order, key)[0] !in r.0.results.values
  {
    var put := OM.PutLast(c.results, key, loaded);
    if |put.order| > MAX_CACHE_SIZE {
      var rest := OM.Without(c.results.order, key);
      assert put.order == rest + [key];
      assert put.order[0] == rest[0] && rest[0] in c.results.order;
      OM.DropOldest(put);
    }
  }

  /** `getFailureReason`: the message of a recent failure. */
  function FailureReason(c: Cache, url: string, maxWidth: int, maxHeight: int, now: int): (r: Option<string>)
    ensures var key := TM.CacheKey(url, maxWidth, maxHeight);
      r.Some? <==> RecentFailure(c, key, now)
    ensures r.Some? ==> r.value == c.failed[TM.CacheKey(url, maxWidth, maxHeight)].reason
  {
    var key := TM.CacheKey(url, maxWidth, maxHeight);
    if RecentFailure(c, key, now) then Some(c.failed[key].reason) else None
  }

  /** `clear`: every result, in-flight marker and failure is dropped. The
      textures are left to the texture manager's own `clear`. */
  function Clear(c: Cache): (r: Cache)
    ensures Valid(r) && r.results.values == map[] && r.loading == {} && r.failed == map[]
  {
    EMPTY
  }

  /** A key is never in flight twice: while its download runs, asking
      again shares it; only settling it, or `Clear` dropping every marker,
      allows a new one. */
  lemma SingleFlight(c: Cache, url: string, w: int, h: int, now: int, later: int)
    requires TM.CacheKey(url, w, h) in c.loading
    ensures !LoadImage(c, url, w, h, now).2
    ensures var key := TM.CacheKey(url, w, h);
      key !in c.results.values && !RecentFailure(c, key, now) ==> LoadImage(c, url, w, h, now).1 == Pending(key)
  {
  }

  /** A failure blocks the key for the retry delay and no longer: after
      `Settle` records it, `loadImage` answers `null` without a download
      until 30 000 ms have passed, then a new download starts. */
  lemma CooldownThenRetry(c: Cache, url: string, w: int, h: int, error: string, failedAt: int, now: int)
    requires TM.CacheKey(url, w, h) !in c.results.values
    ensures var key := TM.CacheKey(url, w, h);
      var f := Settle(c, key, Failure(error), failedAt).0;
      && (now - failedAt < RETRY_DELAY_MS ==> LoadImage(f, url, w, h, now) == (f, Ready(None), false))
      && (now - failedAt >= RETRY_DELAY_MS ==> (LoadImage(f, url, w, h, now).2
            && key !in LoadImage(f, url, w, h, now).0.failed))
  {
  }
}
