/** The image preview's URL checks: which URLs are images, which need an
    embed page resolved first, and which whitelist entry, if any, admits a
    URL's host. The whitelist is decoded from the config and cached until
    the config version changes. Parsing a URL into its host is the oracle
    `host`: `None` when the URL does not parse or has no host. */
module ImageHoverPreview {
  import opened Wrappers
  import opened JavaText
  import opened ConfigValue
  import opened ConfigKeys
  import opened SpecialUnits
  import CP = ConfigProvider
  import UR = UrlResolver
  import IC = ImageCache
  import TM = ImageTextureManager

  // ---------------------------------------------------------------------
  // IMAGE_PATTERN
  // ---------------------------------------------------------------------

  /** Java's `\s`: space, tab, line feed, vertical tab, form feed, return. */
  predicate IsSpace(c: char) {
    c == ' ' || c == '\t' || c == '\n' || c as int == 11 || c as int == 12 || c == '\r'
  }

  /** No whitespace in `s[a..b]`. */
  predicate NoSpace(s: string, a: int, b: int) {
    forall j :: a <= j < b && 0 <= j < |s| ==> !IsSpace(s[j])
  }

  /** The length of `https?://` at `i` (in lower case), or 0. */
  function SchemeLen(s: string, i: int): (n: nat)
    ensures n == 0 || n == 7 || n == 8
  {
    if OccursAt(s, "https://", i) then 8 else if OccursAt(s, "http://", i) then 7 else 0
  }

  /** One of the five extensions, with its dot, at `k` (in lower case). */
  predicate ExtAt(s: string, k: int) {
    OccursAt(s, ".png", k) || OccursAt(s, ".jpg", k) || OccursAt(s, ".jpeg", k)
      || OccursAt(s, ".gif", k) || OccursAt(s, ".webp", k)
  }

  /** The pattern matches from `i`, with the extension's dot at `k`. */
  predicate ImageAt(s: string, i: int, k: int) {
    0 <= i && SchemeLen(s, i) > 0 && i + SchemeLen(s, i) <= k && NoSpace(s, i + SchemeLen(s, i), k) && ExtAt(s, k)
  }

  /** What a `find` of `https?://\S*\.(?:png|jpg|jpeg|gif|webp)` means on
      a lower-cased string: a match starts somewhere. The optional query
      group after the extension never decides whether there is a match. */
  ghost predicate ImageMatch(s: string) {
    exists i, k :: 0 <= i <= k <= |s| && ImageAt(s, i, k)
  }

  /** Scans from `k` to the next whitespace for an extension. */
  function ExtBefore(s: string, k: nat): bool
    decreases |s| - k
  {
    if k >= |s| then false
    else if ExtAt(s, k) then true
    else if IsSpace(s[k]) then false
    else ExtBefore(s, k + 1)
  }

  lemma {:induction false} ExtBeforeIff(s: string, k: nat)
    ensures ExtBefore(s, k) <==> exists k' :: k <= k' <= |s| && NoSpace(s, k, k') && ExtAt(s, k')
    decreases |s| - k
  {
    if k >= |s| {
      forall k' | k <= k' <= |s| ensures !ExtAt(s, k') { }
    } else if ExtAt(s, k) {
      assert NoSpace(s, k, k);
    } else if IsSpace(s[k]) {
      forall k' | k <= k' <= |s| && ExtAt(s, k') ensures !NoSpace(s, k, k') {
        assert k' != k;
      }
    } else {
      ExtBeforeIff(s, k + 1);
      if ExtBefore(s, k + 1) {
        var k' :| k + 1 <= k' <= |s| && NoSpace(s, k + 1, k') && ExtAt(s, k');
        assert NoSpace(s, k, k');
      }
      forall k' | k <= k' <= |s| && NoSpace(s, k, k') && ExtAt(s, k') ensures ExtBefore(s, k + 1) {
        assert k' != k;
        assert NoSpace(s, k + 1, k');
      }
    }
  }

  /** The scan of `Matcher.find` from start position `i`. */
  function FindFrom(s: string, i: nat): bool
    decreases |s| - i
  {
    if i >= |s| then false
    else (SchemeLen(s, i) > 0 && ExtBefore(s, i + SchemeLen(s, i))) || FindFrom(s, i + 1)
  }

  lemma {:induction false} FindFromIff(s: string, i: nat)
    ensures FindFrom(s, i) <==> exists i', k :: i <= i' <= k <= |s| && ImageAt(s, i', k)
    decreases |s| - i
  {
    if i >= |s| {
      forall i', k | i <= i' <= k <= |s| ensures !ImageAt(s, i', k) {
        assert SchemeLen(s, i') == 0;
      }
    } else {
      FindFromIff(s, i + 1);
      var n := SchemeLen(s, i);
      if n > 0 {
        ExtBeforeIff(s, i + n);
        if ExtBefore(s, i + n) {
          var k :| i + n <= k <= |s| && NoSpace(s, i + n, k) && ExtAt(s, k);
          assert ImageAt(s, i, k);
        }
      }
      forall i', k | i <= i' <= k <= |s| && ImageAt(s, i', k) ensures FindFrom(s, i) {
        if i' == i {
          ExtBeforeIff(s, i + n);
        } else {
          assert i + 1 <= i';
        }
      }
    }
  }

  /** `IMAGE_PATTERN.matcher(url).find()`, case-insensitive. */
  predicate MatchesImagePattern(url: string) {
    FindFrom(ToLower(url), 0)
  }

  /** The scan finds a match exactly when one exists. */
  lemma MatchesImagePatternIff(url: string)
    ensures MatchesImagePattern(url) <==> ImageMatch(ToLower(url))
  {
    FindFromIff(ToLower(url), 0);
  }

  /** The extension may sit anywhere after the scheme, not only at the
      end: whatever follows it does not matter. */
  lemma ExtensionAnywhere(url: string, k: nat, rest: string)
    requires StartsWith(ToLower(url), "https://") && 8 <= k && NoSpace(ToLower(url), 8, k) && ExtAt(ToLower(url), k)
    ensures MatchesImagePattern(url)
    ensures MatchesImagePattern(url + rest)
  {
    var s := ToLower(url);
    var t := ToLower(url + rest);
    assert OccursAt(s, "https://", 0);
    assert ImageAt(s, 0, k);
    MatchesImagePatternIff(url);
    assert t[..|s|] == s;
    ImageAtPrefix(s, t, 0, k);
    MatchesImagePatternIff(url + rest);
  }

  /** A match in a prefix is a match in the whole string. */
  lemma ImageAtPrefix(s: string, t: string, i: int, k: int)
    requires |s| <= |t| && t[..|s|] == s && ImageAt(s, i, k)
    ensures ImageAt(t, i, k)
  {
    assert k + 4 <= |s| by {
      assert |".png"| == 4 && |".jpg"| == 4 && |".jpeg"| == 5 && |".gif"| == 4 && |".webp"| == 5;
    }
    assert i + |"https://"| <= |s|;
    OccursAtPrefix(s, t, "https://", i);
    OccursAtPrefix(s, t, "http://", i);
    assert SchemeLen(t, i) == SchemeLen(s, i);
    OccursAtPrefix(s, t, ".png", k);
    OccursAtPrefix(s, t, ".jpg", k);
    OccursAtPrefix(s, t, ".jpeg", k);
    OccursAtPrefix(s, t, ".gif", k);
    OccursAtPrefix(s, t, ".webp", k);
  }

  /** An occurrence in a prefix is an occurrence in the whole string; and
      where the prefix is long enough, conversely. */
  lemma OccursAtPrefix(s: string, t: string, w: string, i: int)
    requires |s| <= |t| && t[..|s|] == s
    ensures OccursAt(s, w, i) ==> OccursAt(t, w, i)
    ensures 0 <= i && i + |w| <= |s| ==> (OccursAt(t, w, i) <==> OccursAt(s, w, i))
  {
    if 0 <= i && i + |w| <= |s| {
      forall j | i <= j < i + |w| ensures t[j] == s[j] {
        assert t[..|s|][j] == t[j];
      }
      assert t[i..i + |w|] == s[i..i + |w|];
    }
  }

  /** Without one of the five extensions there is no match. */
  lemma NoExtensionNoMatch(url: string)
    requires forall k :: 0 <= k <= |url| ==> !ExtAt(ToLower(url), k)
    ensures !MatchesImagePattern(url)
  {
    MatchesImagePatternIff(url);
  }

  // ---------------------------------------------------------------------
  // The whitelist
  // ---------------------------------------------------------------------

  /** The cached whitelist and the config version it was read at (-1
      before the first read). */
  datatype Cache = Cache(version: int, whitelist: seq<WhitelistUnit>)

  const INITIAL_CACHE: Cache := Cache(-1, [])

  /** `refreshWhitelistCache`. The version is stored before the list is
      decoded, so a list that fails to decode throws once and the old
      whitelist stays until the config changes again. */
  function RefreshWhitelist(c: Cache, p: CP.Provider): (r: (Cache, Option<string>))
    ensures c.version == p.version ==> r == (c, None)
    ensures c.version != p.version ==>
      && r.0.version == p.version
      && var decoded := DecodeAll(FromJson(CP.GetList(p, IMAGE_WHITELIST)), WhitelistOf);
         (decoded.Success? ==> r == (Cache(p.version, decoded.value), None))
         && (decoded.Failure? ==> r.0.whitelist == c.whitelist && r.1.Some?)
  {
    if c.version == p.version then (c, None)
    else
      var raw := CP.GetList(p, IMAGE_WHITELIST);
      var decoded := if raw == [] then Success([]) else DecodeAll(FromJson(raw), WhitelistOf);
      match decoded
      case Success(ws) => (Cache(p.version, ws), None)
      case Failure(e) => (Cache(p.version, c.whitelist), Some(e))
  }

  /** After a refresh the cache is current, and a second refresh changes
      nothing. */
  lemma RefreshIsIdempotent(c: Cache, p: CP.Provider)
    ensures RefreshWhitelist(c, p).0.version == p.version
    ensures RefreshWhitelist(RefreshWhitelist(c, p).0, p) == (RefreshWhitelist(c, p).0, None)
  {
  }

  /** The host is the domain or one of its subdomains, ignoring case. */
  predicate HostMatches(host: string, domain: string) {
    var h := ToLower(host);
    var d := ToLower(domain);
    h == d || EndsWith(h, "." + d)
  }

  /** An enabled entry whose domain admits `host`. */
  predicate Admits(w: WhitelistUnit, host: string) {
    w.enabled && HostMatches(host, w.domain)
  }

  /** No entry before index `j` admits `host`. */
  predicate NoneBefore(ws: seq<WhitelistUnit>, j: int, host: string) {
    forall i :: 0 <= i < j && i < |ws| ==> !Admits(ws[i], host)
  }

  /** The index of the first enabled entry that admits `host`. */
  function FirstEntry(ws: seq<WhitelistUnit>, host: string, from: nat): (r: Option<nat>)
    requires from <= |ws|
    ensures r.Some? ==> from <= r.value < |ws| && ws[r.value].enabled && HostMatches(host, ws[r.value].domain)
    ensures r.Some? ==> forall j :: from <= j < r.value ==> !(ws[j].enabled && HostMatches(host, ws[j].domain))
    ensures r.None? <==> forall j :: from <= j < |ws| ==> !(ws[j].enabled && HostMatches(host, ws[j].domain))
    decreases |ws| - from
  {
    if from == |ws| then None
    else if ws[from].enabled && HostMatches(host, ws[from].domain) then Some(from)
    else FirstEntry(ws, host, from + 1)
  }

  /** `getWhitelistEntry`: the refresh runs outside the `try`, so a
      whitelist that fails to decode throws out of the call; otherwise
      nothing for an empty whitelist or a URL without a host, else the first
      enabled entry whose domain admits the host. */
  function GetWhitelistEntry(c: Cache, p: CP.Provider, host: Option<string>): (r: (Cache, Result<Option<WhitelistUnit>>))
    ensures r.0 == RefreshWhitelist(c, p).0
    ensures r.1.Failure? <==> RefreshWhitelist(c, p).1.Some?
    ensures r.1.Failure? ==> r.1.error == RefreshWhitelist(c, p).1.value
    ensures r.1.Success? && (r.0.whitelist == [] || host.None?) ==> r.1.value.None?
    ensures r.1.Success? ==>
      (r.1.value.Some? <==> host.Some? && exists j :: 0 <= j < |r.0.whitelist| && Admits(r.0.whitelist[j], host.value))
    ensures r.1.Success? && r.1.value.Some? ==> Admits(r.1.value.value, host.value)
    ensures r.1.Success? && r.1.value.Some? ==>
      exists j :: 0 <= j < |r.0.whitelist| && r.0.whitelist[j] == r.1.value.value && NoneBefore(r.0.whitelist, j, host.value)
  {
    var (c1, err) := RefreshWhitelist(c, p);
    if err.Some? then (c1, Failure(err.value))
    else if c1.whitelist == [] then (c1, Success(None))
    else
      match host
      case None => (c1, Success(None))
      case Some(h) =>
        match FirstEntry(c1.whitelist, h, 0)
        case None => (c1, Success(None))
        case Some(j) => (c1, Success(Some(c1.whitelist[j])))
  }

  /** A whitelist that fails to decode throws once, on the first lookup
      after the config changed; the next lookup answers from the old
      entries. */
  lemma DecodeFailureThrowsOnce(c: Cache, p: CP.Provider, host: Option<string>)
    requires RefreshWhitelist(c, p).1.Some?
    ensures GetWhitelistEntry(c, p, host).1.Failure?
    ensures var c1 := GetWhitelistEntry(c, p, host).0;
      c1.whitelist == c.whitelist && GetWhitelistEntry(c1, p, host).1.Success?
  {
  }

  /** Lower-casing distributes over concatenation. */
  lemma LowerConcat(a: string, b: string)
    ensures ToLower(a + b) == ToLower(a) + ToLower(b)
  {
  }

  /** A subdomain is admitted by its parent's entry. */
  lemma SubdomainMatches(sub: string, domain: string)
    ensures HostMatches(sub + "." + domain, domain)
  {
    LowerConcat(sub + ".", domain);
    LowerConcat(sub, ".");
    var h := ToLower(sub + "." + domain);
    assert h == ToLower(sub) + "." + ToLower(domain);
    assert h[|h| - |"." + ToLower(domain)|..] == "." + ToLower(domain);
  }

  /** A host that merely ends with the domain's letters is not admitted. */
  lemma LookalikeDoesNotMatch(prefix: string, domain: string)
    requires prefix != [] && prefix[|prefix| - 1] != '.'
    ensures !HostMatches(prefix + domain, domain)
  {
    LowerConcat(prefix, domain);
    var h := ToLower(prefix + domain);
    var d := ToLower(domain);
    assert h[|prefix| - 1] == LowerChar(prefix[|prefix| - 1]) != '.';
    assert h[|h| - |d| - 1] != ("." + d)[0];
    assert |h| - |"." + d| == |h| - |d| - 1;
  }

  /** `isWhitelisted`, passing on a refresh failure. */
  function IsWhitelisted(c: Cache, p: CP.Provider, host: Option<string>): (r: (Cache, Result<bool>))
    ensures r.0 == RefreshWhitelist(c, p).0
    ensures r.1.Failure? <==> RefreshWhitelist(c, p).1.Some?
    ensures r.1.Success? ==>
      (r.1.value <==> host.Some? && exists j :: 0 <= j < |r.0.whitelist| && Admits(r.0.whitelist[j], host.value))
  {
    var (c1, e) := GetWhitelistEntry(c, p, host);
    match e
    case Failure(err) => (c1, Failure(err))
    case Success(entry) => (c1, Success(entry.Some?))
  }

  /** `isEmbedResolutionEnabledForUrl`: the first admitting entry decides,
      even when a later one would allow resolution; a refresh failure is
      passed on. */
  function EmbedResolutionEnabled(c: Cache, p: CP.Provider, host: Option<string>): (r: (Cache, Result<bool>))
    ensures r.0 == RefreshWhitelist(c, p).0
    ensures r.1.Failure? <==> RefreshWhitelist(c, p).1.Some?
    ensures var e := GetWhitelistEntry(c, p, host).1;
      r.1.Success? ==> (r.1.value <==> e.Success? && e.value.Some? && e.value.value.resolveEmbed)
  {
    var (c1, e) := GetWhitelistEntry(c, p, host);
    match e
    case Failure(err) => (c1, Failure(err))
    case Success(entry) => (c1, Success(entry.Some? && entry.value.resolveEmbed))
  }

  /** The first admitting entry decides resolution: an entry that forbids
      it shadows any later one that allows it, though the host stays
      whitelisted. */
  lemma FirstEntryDecides(c: Cache, p: CP.Provider, host: string, first: WhitelistUnit, rest: seq<WhitelistUnit>)
    requires c.version == p.version && c.whitelist == [first] + rest
    requires Admits(first, host) && !first.resolveEmbed
    ensures EmbedResolutionEnabled(c, p, Some(host)).1 == Success(false)
    ensures IsWhitelisted(c, p, Some(host)).1 == Success(true)
  {
    assert FirstEntry(c.whitelist, host, 0) == Some(0);
  }

  // ---------------------------------------------------------------------
  // Image URLs
  // ---------------------------------------------------------------------

  /** `isImageUrl`: a direct image URL, or an embed page the whitelist lets
      be resolved. The whitelist is consulted only when the pattern does not
      match, and only then can a refresh failure throw. */
  function IsImageUrl(c: Cache, p: CP.Provider, url: Option<string>, host: Option<string>): (r: (Cache, Result<bool>))
    ensures url.None? ==> r == (c, Success(false))
    ensures url.Some? && MatchesImagePattern(url.value) ==> r == (c, Success(true))
    ensures url.Some? && !MatchesImagePattern(url.value) ==> (
      && r.0 == RefreshWhitelist(c, p).0
      && (r.1.Failure? <==> RefreshWhitelist(c, p).1.Some?)
      && (r.1.Success? ==>
            (r.1.value <==> EmbedResolutionEnabled(c, p, host).1 == Success(true) && StartsWith(url.value, "http"))))
  {
    match url
    case None => (c, Success(false))
    case Some(u) =>
      if MatchesImagePattern(u) then (c, Success(true))
      else
        var (c1, embed) := EmbedResolutionEnabled(c, p, host);
        match embed
        case Failure(err) => (c1, Failure(err))
        case Success(on) => (c1, Success(on && UR.IsResolvable(url)))
  }

  /** `needsResolution`: resolvable and not a direct image URL. */
  function NeedsResolution(url: Option<string>): (r: bool)
    ensures r <==> url.Some? && !MatchesImagePattern(url.value) && StartsWith(url.value, "http")
  {
    match url
    case None => false
    case Some(u) => !MatchesImagePattern(u) && UR.IsResolvable(url)
  }

  /** An image URL is either direct or needs resolution, never both. */
  lemma ImageUrlIsDirectOrResolved(c: Cache, p: CP.Provider, url: string, host: Option<string>)
    ensures IsImageUrl(c, p, Some(url), host).1 == Success(true) ==> MatchesImagePattern(url) != NeedsResolution(Some(url))
  {
  }

  /** `isEnabled`. */
  function IsEnabled(p: CP.Provider): (r: bool)
    ensures CP.Get(p, IMAGE_PREVIEW_ENABLED) == Bool(true) ==> r
    ensures !CP.Get(p, IMAGE_PREVIEW_ENABLED).Bool? ==> !r
  {
    CP.GetBoolean(p, IMAGE_PREVIEW_ENABLED, false)
  }

  /** `clearCache`: empties the download cache, the textures and the
      resolver's caches. */
  function ClearCaches(images: IC.Cache, textures: TM.Manager, resolver: UR.Resolver): (r: (IC.Cache, TM.Manager, UR.Resolver))
    ensures r.0.results.values == map[] && r.0.loading == {} && r.0.failed == map[]
    ensures r.1.statics.order == [] && r.1.animated.order == [] && r.1.live.Keys <= textures.live.Keys
    ensures r.2.resolved == map[] && r.2.failed == map[]
  {
    (IC.Clear(images), TM.Clear(textures), UR.ClearCache(resolver))
  }
}
