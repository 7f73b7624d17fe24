/** Resolution of embed pages to direct image URLs. Four resolvers are
    tried in order, and only the first whose pattern matches is used:
    Imgur and Giphy rewrite the URL, Tenor and the generic fallback scrape
    the page's `og:image` tag. Successes are cached for good, failures for
    a minute. The page scrape is the oracle `fetch`: a thrown exception is
    a `Failure`, a page without the tag is `Success(None)`. */
module UrlResolver {
  import opened Wrappers
  import opened JavaText

  const FAILURE_COOLDOWN_MS: int := 60_000

  predicate IsAlnum(c: char) {
    'a' <= c <= 'z' || 'A' <= c <= 'Z' || '0' <= c <= '9'
  }

  predicate AllAlnum(s: string) {
    forall i :: 0 <= i < |s| ==> IsAlnum(s[i])
  }

  /** One of the four ways to spell `https?://(?:www\.)?` followed by `host`. */
  predicate Spelled(url: string, host: string, tail: string) {
    || url == "http://" + host + tail
    || url == "https://" + host + tail
    || url == "http://www." + host + tail
    || url == "https://www." + host + tail
  }

  /** What follows `^https?://(?:www\.)?host` in `url`. The optional `www.`
      is taken when present; none of the hosts below starts with `w`, so the
      regex has nothing to backtrack to. */
  function AfterHost(url: string, host: string): (r: Option<string>)
    ensures r.Some? ==> Spelled(url, host, r.value)
  {
    var rest :=
      if StartsWith(url, "https://") then Some(url[8..])
      else if StartsWith(url, "http://") then Some(url[7..])
      else None;
    match rest
    case None => None
    case Some(s) =>
      if StartsWith(s, "www." + host) then
        SpelledFromParts(url, host, s, "www." + host);
        Some(s[4 + |host|..])
      else if StartsWith(s, host) then
        SpelledFromParts(url, host, s, host);
        Some(s[|host|..])
      else None
  }

  /** A scheme, then an optional `www.` and the host, then the tail. */
  lemma SpelledFromParts(url: string, host: string, s: string, prefix: string)
    requires prefix == "www." + host || prefix == host
    requires StartsWith(s, prefix)
    requires (StartsWith(url, "https://") && s == url[8..]) || (StartsWith(url, "http://") && s == url[7..])
    ensures Spelled(url, host, s[|prefix|..])
  {
    var t := s[|prefix|..];
    assert s == prefix + t;
    if StartsWith(url, "https://") && s == url[8..] {
      assert url == url[..8] + url[8..];
      SpelledWith(url, "https://", "https://www.", host, prefix, t);
    } else {
      assert url == url[..7] + url[7..];
      SpelledWith(url, "http://", "http://www.", host, prefix, t);
    }
  }

  lemma SpelledWith(url: string, scheme: string, schemeWww: string, host: string, prefix: string, t: string)
    requires schemeWww == scheme + "www."
    requires prefix == "www." + host || prefix == host
    requires url == scheme + (prefix + t)
    ensures url == scheme + host + t || url == schemeWww + host + t
  {
    if prefix == host {
      assert url == scheme + host + t;
    } else {
      assert url == scheme + "www." + host + t;
    }
  }

  /** What follows the scheme: `url[7..]` or `url[8..]`. */
  lemma SchemeRest(url: string, host: string, tail: string)
    requires Spelled(url, host, tail)
    ensures StartsWith(url, "https://") ==> url[8..] == host + tail || url[8..] == "www." + host + tail
    ensures !StartsWith(url, "https://") ==> url[7..] == host + tail || url[7..] == "www." + host + tail
  {
    if url == "http://" + host + tail {
      assert url[4] == ':';
      assert url[7..] == host + tail;
    } else if url == "http://www." + host + tail {
      assert url[4] == ':';
      assert url[7..] == "www." + host + tail;
    } else if url == "https://" + host + tail {
      assert url[8..] == host + tail;
    } else {
      assert url[8..] == "www." + host + tail;
    }
  }

  /** Every spelling is recognised, and the tail is what follows the host. */
  lemma AfterHostOfSpelled(url: string, host: string, tail: string)
    requires Spelled(url, host, tail) && host != [] && host[0] != 'w'
    ensures AfterHost(url, host) == Some(tail)
  {
    SchemeRest(url, host, tail);
    var rest := if StartsWith(url, "https://") then url[8..] else url[7..];
    assert ("www." + host)[0] == 'w';
    assert ("www." + host + tail)[..4 + |host|] == "www." + host;
    assert (host + tail)[..|host|] == host;
  }

  /** A URL spelled with one host has no tail after another host that
      starts with a different letter. */
  lemma OtherHost(url: string, host: string, other: string, tail: string)
    requires Spelled(url, host, tail) && host != [] && other != []
    requires host[0] != 'w' && other[0] != 'w' && host[0] != other[0]
    ensures AfterHost(url, other).None?
  {
    SchemeRest(url, host, tail);
    assert ("www." + host + tail)[4] == host[0];
    assert ("www." + other)[4] == other[0];
    assert (host + tail)[0] == host[0];
    assert ("www." + other)[0] == 'w';
  }

  /** The part after the last `-`, or all of `s` without one: what
      `(?:.*-)?([a-zA-Z0-9]+)$` captures when it matches. */
  function AfterLastDash(s: string): (r: string)
    ensures '-' !in r
    ensures r == s || (|r| < |s| && s == s[..|s| - |r| - 1] + "-" + r)
  {
    if s == [] then []
    else if s[|s| - 1] == '-' then []
    else
      var r := AfterLastDash(s[..|s| - 1]);
      if r == s[..|s| - 1] then
        s
      else
        assert s[..|s| - 1] == s[..|s| - 1 - |r| - 1] + "-" + r;
        assert s == s[..|s| - |r + [s[|s| - 1]]| - 1] + "-" + (r + [s[|s| - 1]]);
        r + [s[|s| - 1]]
  }

  /** Whatever comes before the last `-` does not matter. */
  lemma {:induction false} AfterLastDashOf(slug: string, id: string)
    requires '-' !in id
    ensures AfterLastDash(slug + "-" + id) == id
    decreases |id|
  {
    if id != [] {
      var s := slug + "-" + id;
      assert s[..|s| - 1] == slug + "-" + id[..|id| - 1];
      AfterLastDashOf(slug, id[..|id| - 1]);
      assert id[..|id| - 1] != s[..|s| - 1];
      assert id == id[..|id| - 1] + [s[|s| - 1]];
    } else {
      assert (slug + "-" + id)[|slug + "-" + id| - 1] == '-';
    }
  }

  /** A dash-free string is its own last part. */
  lemma {:induction false} AfterLastDashNoDash(id: string)
    requires '-' !in id
    ensures AfterLastDash(id) == id
    decreases |id|
  {
    if id != [] {
      AfterLastDashNoDash(id[..|id| - 1]);
      assert id == id[..|id| - 1] + [id[|id| - 1]];
    }
  }

  /** The Imgur id of `^https?://(?:www\.)?imgur\.com/([a-zA-Z0-9]+)$`. */
  function ImgurId(url: string): (r: Option<string>)
    ensures r.Some? ==> r.value != [] && AllAlnum(r.value) && Spelled(url, "imgur.com/", r.value)
  {
    match AfterHost(url, "imgur.com/")
    case Some(id) => if id != [] && AllAlnum(id) then Some(id) else None
    case None => None
  }

  /** The Giphy id of `^https?://(?:www\.)?giphy\.com/gifs/(?:.*-)?([a-zA-Z0-9]+)$`. */
  function GiphyId(url: string): (r: Option<string>)
    ensures r.Some? ==> r.value != [] && AllAlnum(r.value)
  {
    match AfterHost(url, "giphy.com/gifs/")
    case Some(path) =>
      var id := AfterLastDash(path);
      if id != [] && AllAlnum(id) then Some(id) else None
    case None => None
  }

  /** `^https?://(?:www\.)?tenor\.com/view/.+`. */
  predicate IsTenor(url: string) {
    var t := AfterHost(url, "tenor.com/view/");
    t.Some? && t.value != []
  }

  datatype Platform = Imgur | Giphy | Tenor | Generic

  /** The first resolver whose `matches` holds; the generic one takes any
      URL that starts with `http`. */
  function FirstMatch(url: string): (r: Option<Platform>)
    ensures r.Some? <==> StartsWith(url, "http")
    ensures r == Some(Imgur) <==> ImgurId(url).Some?
    ensures r == Some(Giphy) <==> ImgurId(url).None? && GiphyId(url).Some?
    ensures r == Some(Tenor) <==> ImgurId(url).None? && GiphyId(url).None? && IsTenor(url)
  {
    if ImgurId(url).Some? then Some(Imgur)
    else if GiphyId(url).Some? then Some(Giphy)
    else if IsTenor(url) then Some(Tenor)
    else if StartsWith(url, "http") then Some(Generic)
    else None
  }

  /** `isResolvable`: true exactly for the URLs that start with `http`. */
  function IsResolvable(url: Option<string>): (r: bool)
    ensures r <==> url.Some? && StartsWith(url.value, "http")
  {
    match url
    case None => false
    case Some(u) => FirstMatch(u).Some?
  }

  /** One resolver's `resolve`: the rewrites need no request, the others
      scrape the page. An Imgur album (`a`, `gallery`) yields null, and so
      does a rewrite whose pattern does not match. */
  function PlatformResolve(p: Platform, url: string, fetch: string -> Result<Option<string>>): (r: Result<Option<string>>)
    ensures p == Imgur ==> (r.Success? && (r.value.None? <==> ImgurId(url).None? || ImgurId(url).value in {"a", "gallery"}))
    ensures p == Imgur && r.value.Some? ==> r.value.value == "https://i.imgur.com/" + ImgurId(url).value + ".jpg"
    ensures p == Giphy && GiphyId(url).Some? ==> r == Success(Some("https://media.giphy.com/media/" + GiphyId(url).value + "/giphy.gif"))
    ensures p == Giphy && GiphyId(url).None? ==> r == Success(None)
    ensures p == Tenor || p == Generic ==> r == fetch(url)
  {
    match p
    case Imgur =>
      if ImgurId(url).None? then Success(None)
      else
        var id := ImgurId(url).value;
        if id == "a" || id == "gallery" then Success(None) else Success(Some("https://i.imgur.com/" + id + ".jpg"))
    case Giphy =>
      if GiphyId(url).None? then Success(None)
      else Success(Some("https://media.giphy.com/media/" + GiphyId(url).value + "/giphy.gif"))
    case Tenor => fetch(url)
    case Generic => fetch(url)
  }

  /** The two caches: resolved URLs, and the time of each URL's last
      failed attempt. */
  datatype Resolver = Resolver(resolved: map<string, string>, failed: map<string, int>)

  const EMPTY: Resolver := Resolver(map[], map[])

  predicate CoolingDown(st: Resolver, url: string, now: int) {
    url in st.failed && now - st.failed[url] < FAILURE_COOLDOWN_MS
  }

  /** `resolve`: a cached answer, else null during the cooldown, else the
      first matching resolver's answer. A non-null answer is cached and
      clears the failure; anything else records a failure at `stampedAt`,
      the second clock reading taken once the resolver has returned. */
  function Resolve(st: Resolver, url: Option<string>, now: int, stampedAt: int, fetch: string -> Result<Option<string>>): (r: (Resolver, Option<string>))
    ensures url.None? ==> r == (st, None)
    ensures url.Some? && url.value in st.resolved ==> r == (st, Some(st.resolved[url.value]))
    ensures url.Some? && url.value !in st.resolved && CoolingDown(st, url.value, now) ==> r == (st, None)
    ensures url.Some? && url.value !in st.resolved && !CoolingDown(st, url.value, now) ==> (
      && (r.1.Some? ==> r.0 == Resolver(st.resolved[url.value := r.1.value], st.failed - {url.value}))
      && (r.1.None? ==> r.0 == Resolver(st.resolved, st.failed[url.value := stampedAt])))
    ensures r.1.Some? ==> url.Some? && (url.value in st.resolved || StartsWith(url.value, "http"))
  {
    match url
    case None => (st, None)
    case Some(u) =>
      if u in st.resolved then (st, Some(st.resolved[u]))
      else if CoolingDown(st, u, now) then (st, None)
      else
        var outcome := match FirstMatch(u)
          case None => Success(None)
          case Some(p) => PlatformResolve(p, u, fetch);
        if outcome.Success? && outcome.value.Some? then
          (Resolver(st.resolved[u := outcome.value.value], st.failed - {u}), outcome.value)
        else (Resolver(st.resolved, st.failed[u := stampedAt]), None)
  }

  /** `clearCache`. */
  function ClearCache(st: Resolver): (r: Resolver)
    ensures r.resolved == map[] && r.failed == map[]
  {
    EMPTY
  }

  /** An Imgur page is rewritten without a request, whatever the page
      scrape would have said; the URL is cached. */
  lemma ImgurRewrite(st: Resolver, url: string, id: string, now: int, stampedAt: int, fetch: string -> Result<Option<string>>)
    requires Spelled(url, "imgur.com/", id) && id != [] && AllAlnum(id) && id != "a" && id != "gallery"
    requires url !in st.resolved && !CoolingDown(st, url, now)
    ensures Resolve(st, Some(url), now, stampedAt, fetch).1 == Some("https://i.imgur.com/" + id + ".jpg")
    ensures Resolve(st, Some(url), now, stampedAt, fetch).0.resolved[url] == "https://i.imgur.com/" + id + ".jpg"
  {
    AfterHostOfSpelled(url, "imgur.com/", id);
  }

  /** Only the first matching resolver is tried: an Imgur album link
      matches the Imgur resolver, which yields null, so the generic
      scrape is never consulted and the failure is recorded. */
  lemma AlbumIsNotScraped(st: Resolver, now: int, stampedAt: int, fetch: string -> Result<Option<string>>)
    requires "https://imgur.com/a" !in st.resolved && !CoolingDown(st, "https://imgur.com/a", now)
    ensures Resolve(st, Some("https://imgur.com/a"), now, stampedAt, fetch) == (Resolver(st.resolved, st.failed["https://imgur.com/a" := stampedAt]), None)
  {
    AfterHostOfSpelled("https://imgur.com/a", "imgur.com/", "a");
    assert AllAlnum("a");
  }

  /** A Giphy page is rewritten from the id after the slug's last dash. */
  lemma GiphyRewrite(url: string, slug: string, id: string)
    requires Spelled(url, "giphy.com/gifs/", slug + "-" + id) && id != [] && AllAlnum(id)
    ensures GiphyId(url) == Some(id)
    ensures ImgurId(url).None?
    ensures FirstMatch(url) == Some(Giphy)
  {
    assert '-' !in id by {
      forall i | 0 <= i < |id| ensures id[i] != '-' { assert IsAlnum(id[i]); }
    }
    AfterHostOfSpelled(url, "giphy.com/gifs/", slug + "-" + id);
    AfterLastDashOf(slug, id);
    OtherHost(url, "giphy.com/gifs/", "imgur.com/", slug + "-" + id);
  }

  /** Without a slug the whole path is the Giphy id. */
  lemma GiphyPlainId(url: string, id: string)
    requires Spelled(url, "giphy.com/gifs/", id) && id != [] && AllAlnum(id)
    ensures GiphyId(url) == Some(id)
  {
    assert '-' !in id by {
      forall i | 0 <= i < |id| ensures id[i] != '-' { assert IsAlnum(id[i]); }
    }
    AfterHostOfSpelled(url, "giphy.com/gifs/", id);
    AfterLastDashNoDash(id);
  }

  /** Once resolved, a URL is answered from the cache at any later time,
      without consulting any resolver. */
  lemma ResolvedIsCached(st: Resolver, url: string, now: int, stampedAt: int, later: int, laterStamp: int, fetch: string -> Result<Option<string>>, other: string -> Result<Option<string>>)
    ensures var (st1, answer) := Resolve(st, Some(url), now, stampedAt, fetch);
      answer.Some? ==> Resolve(st1, Some(url), later, laterStamp, other) == (st1, answer)
  {
  }

  /** A failed URL is refused for a minute after the failure was
      stamped, whatever the resolvers would say, and tried again
      afterwards. */
  lemma FailureCoolsDown(st: Resolver, url: string, now: int, stampedAt: int, later: int, laterStamp: int, fetch: string -> Result<Option<string>>, other: string -> Result<Option<string>>)
    requires url !in st.resolved && !CoolingDown(st, url, now)
    ensures var (st1, answer) := Resolve(st, Some(url), now, stampedAt, fetch);
      answer.None? ==>
      && st1.failed[url] == stampedAt
      && (later - stampedAt < FAILURE_COOLDOWN_MS ==> Resolve(st1, Some(url), later, laterStamp, other) == (st1, None))
      && (later - stampedAt >= FAILURE_COOLDOWN_MS ==> !CoolingDown(st1, url, later))
  {
  }
}
