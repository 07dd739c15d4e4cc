/**
 * The privacy session configuration: which storage partition a new view
 * is bound to, and the policy a navigation installs on the session of its
 * view (the permission handler, the user agent and the request filter).
 * Sessions are process-wide and keyed by partition; a handler, once
 * installed, is replaced by later installs but never removed.
 */
module Sessions {
  import opened Wrappers
  import opened Text
  import opened Options
  import opened TrafficFilter

  const DefaultPartition := "persist:default"
  const VpnPartition := "persist:vpn"

  /** The partition a newly created view is bound to. */
  function PartitionFor(vpnEnabled: bool): (p: string)
    ensures p == VpnPartition <==> vpnEnabled
    ensures p == DefaultPartition <==> !vpnEnabled
  {
    if vpnEnabled then VpnPartition else DefaultPartition
  }

  /** The permission names the installed handler refuses, spelled as the handler spells them. */
  const DeniedPermissions: seq<string> := ["notifications", "geolocation", "media", "midi", "midiSysex"]

  /** The verdict of the installed permission handler: `!deniedPermissions.includes(permission)`. */
  function HandlerGrants(permission: string): (granted: bool)
    ensures !granted <==> exists i :: 0 <= i < |DeniedPermissions| && DeniedPermissions[i] == permission
  {
    !(permission in DeniedPermissions)
  }

  /** The pool the anti-fingerprinting option draws a user agent from. */
  const UserAgents: seq<string> := [
    "Mozilla/5.0 (Windows NT 10.0; Win64; x64) AppleWebKit/537.36 (KHTML, like Gecko) Chrome/120.0.0.0 Safari/537.36",
    "Mozilla/5.0 (Macintosh; Intel Mac OS X 10_15_7) AppleWebKit/537.36 (KHTML, like Gecko) Chrome/120.0.0.0 Safari/537.36",
    "Mozilla/5.0 (X11; Linux x86_64) AppleWebKit/537.36 (KHTML, like Gecko) Chrome/120.0.0.0 Safari/537.36"
  ]

  /** Which entry of the pool a navigation picks; the random draw itself is not modelled. */
  type UserAgentIndex = i: nat | i < 3

  /**
   * What is installed on one session: whether the permission handler and
   * the request filter are present, and which entry of the pool was set as
   * its user agent, if any.
   */
  datatype Policy = Policy(guardsPermissions: bool, filtersRequests: bool, userAgent: Option<UserAgentIndex>)

  /** The user agent string a session reports; None stands for the platform's own. */
  function ReportedUserAgent(policy: Policy): Option<string>
  {
    match policy.userAgent
    case Some(i) => Some(UserAgents[i])
    case None => None
  }

  /** A session nobody has configured: no handlers and the platform's own user agent. */
  const InitialPolicy := Policy(false, false, None)

  /** The policy of a partition; a session not touched yet has the initial policy. */
  function PolicyOf(sessions: map<string, Policy>, partition: string): Policy
  {
    if partition in sessions then sessions[partition] else InitialPolicy
  }

  /**
   * One navigation's configuration step on a session: `blockTrackers`
   * installs both handlers, `antiFingerprint` sets the picked user agent,
   * and whatever an option does not install stays as it was.
   */
  function Configure(policy: Policy, opts: NavigationOptions, pick: UserAgentIndex): (after: Policy)
    ensures after.guardsPermissions <==> policy.guardsPermissions || opts.blockTrackers
    ensures after.filtersRequests <==> policy.filtersRequests || opts.blockTrackers
    ensures ReportedUserAgent(after) == if opts.antiFingerprint then Some(UserAgents[pick]) else ReportedUserAgent(policy)
  {
    Policy(
      policy.guardsPermissions || opts.blockTrackers,
      policy.filtersRequests || opts.blockTrackers,
      if opts.antiFingerprint then Some(pick) else policy.userAgent)
  }

  /** Applying a partition's configuration step to the session table. */
  function ConfigureSession(sessions: map<string, Policy>, partition: string, opts: NavigationOptions, pick: UserAgentIndex): (after: map<string, Policy>)
    ensures partition in after && after[partition] == Configure(PolicyOf(sessions, partition), opts, pick)
    ensures forall p :: p != partition ==> PolicyOf(after, p) == PolicyOf(sessions, p)
  {
    sessions[partition := Configure(PolicyOf(sessions, partition), opts, pick)]
  }

  /** Repeating a navigation's configuration with the same options and pick changes nothing more. */
  lemma ConfigureIdempotent(policy: Policy, opts: NavigationOptions, pick: UserAgentIndex)
    ensures Configure(Configure(policy, opts, pick), opts, pick) == Configure(policy, opts, pick)
  {
  }

  /** Handlers are never uninstalled: a later navigation without `blockTrackers` keeps them. */
  lemma HandlersAreSticky(policy: Policy, opts: NavigationOptions, pick: UserAgentIndex)
    ensures policy.guardsPermissions ==> Configure(policy, opts, pick).guardsPermissions
    ensures policy.filtersRequests ==> Configure(policy, opts, pick).filtersRequests
  {
  }

  /** Without a handler every permission is granted; with one, exactly the five names are refused. */
  function PermissionGranted(policy: Policy, permission: string): (granted: bool)
    ensures !policy.guardsPermissions ==> granted
    ensures policy.guardsPermissions ==> (granted <==> HandlerGrants(permission))
  {
    !policy.guardsPermissions || HandlerGrants(permission)
  }

  /**
   * The handler compares names exactly, so Chromium's `midiSysex` is refused
   * while the hyphenated `midi-sysex` is granted.
   */
  lemma SysexSpellings()
    ensures !HandlerGrants("midiSysex")
    ensures HandlerGrants("midi-sysex")
  {
    assert DeniedPermissions[4] == "midiSysex";
    assert "midi-sysex"[4] == '-';
    assert forall i :: 0 <= i < |DeniedPermissions| ==> DeniedPermissions[i] != "midi-sysex";
  }

  // The listener's URL filter (`*` for the scheme, `*` for the host, any
  // path): the `*` scheme stands for `http` and `https`, and the host must
  // not be empty.
  predicate MatchesRequestFilter(url: string)
  {
    (StartsWith(url, "http://") && |url| > 7 && url[7] != '/') ||
    (StartsWith(url, "https://") && |url| > 8 && url[8] != '/')
  }

  /**
   * A request of a view is cancelled when its session filters requests,
   * the URL passes the listener's filter (so the listener sees it) and the
   * URL is on the blocklist.
   */
  function RequestCancelled(policy: Policy, url: string): (cancel: bool)
    ensures cancel ==> ShouldBlock(url) && MatchesRequestFilter(url)
    ensures !policy.filtersRequests ==> !cancel
    ensures policy.filtersRequests && MatchesRequestFilter(url) && ShouldBlock(url) ==> cancel
  {
    policy.filtersRequests && MatchesRequestFilter(url) && ShouldBlock(url)
  }

  /** A request outside the filter, such as a `file:` or `data:` URL, is never cancelled, whatever it contains. */
  lemma OnlyWebRequestsCancelled(policy: Policy, url: string)
    requires !StartsWith(url, "http")
    ensures !RequestCancelled(policy, url)
  {
  }

  /** An `https` request to an `ads.` host is cancelled once the session filters requests. */
  lemma AdsHostCancelled(policy: Policy, rest: string)
    requires policy.filtersRequests
    ensures RequestCancelled(policy, "https://ads." + rest)
  {
    var url := "https://ads." + rest;
    assert url[..8] == "https://";
    assert url[8] == 'a';
    assert url == "https://" + "ads." + rest;
    ContainsInfix("https://", "ads.", rest);
    assert Blocklist[6] == "ads.";
    BlockedIffSomeEntryOccurs(url);
    ContainsIffOccurs(url, "ads.");
  }
}
