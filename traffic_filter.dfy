/**
 * The traffic filter: the tracker blocklist consulted for every request of
 * the embedded view, and the proxy rewrite applied to the address a
 * navigation loads.
 */
module TrafficFilter {
  import opened Wrappers
  import opened Text
  import opened UriCodec
  import opened Options

  /** The entries, in order; a request is cancelled when its URL contains any of them. */
  const Blocklist: seq<string> := [
    "doubleclick.net", "googlesyndication.com", "google-analytics.com",
    "facebook.com/tr", "connect.facebook.net", "twitter.com/i/adsct",
    "ads.", "ad.", "analytics.", "tracking.", "tracker."
  ]

  /** Array.prototype.some over `entries` with `url.includes(entry)` as the test. */
  function SomeContained(url: string, entries: seq<string>): bool
    decreases |entries|
  {
    entries != [] && (Contains(url, entries[0]) || SomeContained(url, entries[1..]))
  }

  /** The scan of the list succeeds exactly when some entry occurs in the URL. */
  lemma {:induction false} SomeContainedIffOccurs(url: string, entries: seq<string>)
    ensures SomeContained(url, entries) <==> exists i :: 0 <= i < |entries| && Occurs(url, entries[i])
    decreases |entries|
  {
    if entries != [] {
      var tail := entries[1..];
      SomeContainedIffOccurs(url, tail);
      ContainsIffOccurs(url, entries[0]);
      if exists i :: 0 <= i < |tail| && Occurs(url, tail[i]) {
        var i :| 0 <= i < |tail| && Occurs(url, tail[i]);
        assert entries[i + 1] == tail[i];
      }
      if exists i :: 0 <= i < |entries| && Occurs(url, entries[i]) {
        var i :| 0 <= i < |entries| && Occurs(url, entries[i]);
        if i > 0 {
          assert tail[i - 1] == entries[i];
        }
      }
    }
  }

  /** The blocking decision for one request URL (case-sensitive, as `includes` is). */
  function ShouldBlock(url: string): bool
  {
    SomeContained(url, Blocklist)
  }

  /** A request is blocked exactly when some blocklist entry is a substring of its URL. */
  lemma BlockedIffSomeEntryOccurs(url: string)
    ensures ShouldBlock(url) <==> exists i :: 0 <= i < |Blocklist| && Occurs(url, Blocklist[i])
  {
    SomeContainedIffOccurs(url, Blocklist);
  }

  /** Whatever surrounds it, a URL containing `doubleclick.net` is blocked. */
  lemma DoubleclickAlwaysBlocked(a: string, b: string)
    ensures ShouldBlock(a + "doubleclick.net" + b)
  {
    var url := a + "doubleclick.net" + b;
    ContainsInfix(a, "doubleclick.net", b);
    ContainsIffOccurs(url, Blocklist[0]);
    BlockedIffSomeEntryOccurs(url);
  }

  /** A URL in which no entry occurs is never blocked. */
  lemma NoEntryNeverBlocked(url: string)
    requires forall i :: 0 <= i < |Blocklist| ==> !Occurs(url, Blocklist[i])
    ensures !ShouldBlock(url)
  {
    BlockedIffSomeEntryOccurs(url);
  }

  /** The rewrite endpoint a navigation uses when none is given. */
  const DefaultProxy := "https://api.allorigins.win/raw?url="

  /** `options.proxyUrl || default`: an absent or empty override falls back to the default. */
  function ProxyEndpoint(opts: NavigationOptions): (proxy: string)
    ensures proxy != []
    ensures opts.proxyUrl.Some? && opts.proxyUrl.value != [] ==> proxy == opts.proxyUrl.value
    ensures opts.proxyUrl.None? || opts.proxyUrl.value == [] ==> proxy == DefaultProxy
  {
    match opts.proxyUrl
    case Some(p) => if p != [] then p else DefaultProxy
    case None => DefaultProxy
  }

  /**
   * The proxy step of a navigation. The endpoint is looked up when either
   * the proxy or the VPN flag is on, but only the proxy flag rewrites, and
   * only an address that does not already contain the endpoint.
   */
  function ApplyProxy(url: string, opts: NavigationOptions): string
  {
    if opts.proxyEnabled || opts.vpnEnabled then
      var proxy := ProxyEndpoint(opts);
      if opts.proxyEnabled && !Contains(url, proxy) then proxy + EncodeUriComponent(url) else url
    else
      url
  }

  /** The address changes exactly when the proxy is on and its endpoint does not yet occur in it. */
  lemma ProxyRewritesIff(url: string, opts: NavigationOptions)
    ensures ApplyProxy(url, opts) != url <==> opts.proxyEnabled && !Contains(url, ProxyEndpoint(opts))
  {
    var proxy := ProxyEndpoint(opts);
    if opts.proxyEnabled && !Contains(url, proxy) {
      EncodeLengthens(url);
      assert |proxy + EncodeUriComponent(url)| > |url|;
    }
  }

  /** A rewritten address is the endpoint followed by an encoding that decodes back to the original. */
  lemma ProxyRoundTrip(url: string, opts: NavigationOptions)
    requires opts.proxyEnabled && !Contains(url, ProxyEndpoint(opts))
    ensures StartsWith(ApplyProxy(url, opts), ProxyEndpoint(opts))
    ensures DecodeUriComponent(ApplyProxy(url, opts)[|ProxyEndpoint(opts)|..]) == Some(url)
  {
    var proxy := ProxyEndpoint(opts);
    var r := ApplyProxy(url, opts);
    assert r[..|proxy|] == proxy;
    assert r[|proxy|..] == EncodeUriComponent(url);
    DecodeEncode(url);
  }

  /** Without the proxy flag (with the VPN flag alone, say) the address is left as it is. */
  lemma NoProxyFlagNoRewrite(url: string, opts: NavigationOptions)
    requires !opts.proxyEnabled
    ensures ApplyProxy(url, opts) == url
  {
  }

  /** Because a rewritten address starts with the endpoint, a second rewrite changes nothing. */
  lemma {:induction false} ProxyIdempotent(url: string, opts: NavigationOptions)
    ensures ApplyProxy(ApplyProxy(url, opts), opts) == ApplyProxy(url, opts)
  {
    var proxy := ProxyEndpoint(opts);
    var r := ApplyProxy(url, opts);
    if opts.proxyEnabled && !Contains(url, proxy) {
      assert r[..|proxy|] == proxy;
      assert StartsWith(r, proxy);
      assert Contains(r, proxy);
    }
  }
}
