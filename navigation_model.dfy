/**
 * The navigation controller as a specification over values: the state it
 * keeps (whether the host window is still open, the single optional
 * embedded view, and the policy of every session partition), and the new
 * state and result of each handler. The imperative controller is proved
 * against these functions.
 */
module NavigationModel {
  import opened Wrappers
  import opened Resolver
  import opened Options
  import opened TrafficFilter
  import opened Sessions
  import opened Geometry

  /**
   * The four listeners (`will-navigate`, `did-navigate`,
   * `page-title-updated`, `did-fail-load`) one navigation registers on the
   * view; the failure listener reports the final address of that navigation.
   */
  datatype ListenerSet = ListenerSet(finalUrl: string)

  /** The embedded view: its partition, whether it is attached to the window, its bounds and its listener sets. */
  datatype SurfaceState = SurfaceState(partition: string, attached: bool, bounds: Option<Rect>, listeners: seq<ListenerSet>)

  datatype ControllerState = ControllerState(windowOpen: bool, view: Option<SurfaceState>, sessions: map<string, Policy>)

  /** The window is open, there is no view and no session has been configured. */
  const InitialState := ControllerState(true, None, map[])

  /** How the page load ends: with the page's title, or rejected with a message. */
  datatype LoadOutcome = Loaded(title: string) | LoadFailed(message: string)

  /** `{success: true, url, title?}` or `{success: false, error}`. */
  datatype NavigationResult = Navigated(url: string, title: Option<string>) | NavigationFailed(error: string)

  /** The messages of the TypeErrors thrown when a handler calls a method of the closed (null) window. */
  const NullRemoveBrowserView := "Cannot read properties of null (reading 'removeBrowserView')"
  const NullAddBrowserView := "Cannot read properties of null (reading 'addBrowserView')"
  const NullGetContentBounds := "Cannot read properties of null (reading 'getContentBounds')"

  /** The state after a handler and the value it returns. */
  datatype Step = Step(after: ControllerState, result: NavigationResult)

  /** The view as a navigation that reaches the listener registration leaves it. */
  function Placed(view: SurfaceState, content: Rect, url: string): SurfaceState
  {
    view.(bounds := Some(ViewBounds(content)), listeners := view.listeners + [ListenerSet(url)])
  }

  /** The address a non-blank navigation loads: resolution followed by the proxy step. */
  function FinalUrl(raw: string, opts: NavigationOptions): string
  {
    ApplyProxy(ResolveAddress(raw), opts)
  }

  /**
   * One `navigate` call. A blank input clears the view; any other input is
   * resolved, passed through the proxy step and loaded.
   */
  function NavigateSpec(st: ControllerState, input: Option<string>, opts: NavigationOptions, content: Rect,
                        pick: UserAgentIndex, outcome: LoadOutcome): Step
  {
    match Resolve(input)
    case Blank => ClearSpec(st)
    case Address(url) => NavigateTo(st, ApplyProxy(url, opts), opts, content, pick, outcome)
  }

  /**
   * A blank navigation: the view is removed from the window and destroyed,
   * which with the window closed throws on the removal and keeps the view.
   */
  function ClearSpec(st: ControllerState): Step
  {
    if st.view.None? then Step(st, Navigated(BlankUrl, None))
    else if !st.windowOpen then Step(st, NavigationFailed(NullRemoveBrowserView))
    else Step(st.(view := None), Navigated(BlankUrl, None))
  }

  /**
   * A navigation to the final address `url`: the view is created if there
   * is none (bound to the partition the VPN flag selects) and attached,
   * placed below the header, the session of the view's own partition is
   * configured, one more listener set is registered and the load runs.
   * With the window closed the first call on it throws, and the catch turns
   * the TypeError into the failure result; what was done before the throw
   * stays done.
   */
  function NavigateTo(st: ControllerState, url: string, opts: NavigationOptions, content: Rect,
                      pick: UserAgentIndex, outcome: LoadOutcome): Step
  {
    var created := SurfaceState(PartitionFor(opts.vpnEnabled), st.windowOpen, None, []);
    if !st.windowOpen then
      if st.view.None? then Step(st.(view := Some(created)), NavigationFailed(NullAddBrowserView))
      else Step(st, NavigationFailed(NullGetContentBounds))
    else
      var view := if st.view.Some? then st.view.value else created;
      var after := ControllerState(true, Some(Placed(view, content, url)),
                                   ConfigureSession(st.sessions, view.partition, opts, pick));
      match outcome
      case Loaded(title) => Step(after, Navigated(url, Some(title)))
      case LoadFailed(message) => Step(after, NavigationFailed(message))
  }

  /** The window's `closed` handler: the window is gone and the view is destroyed and dropped. */
  function CloseSpec(st: ControllerState): (after: ControllerState)
    ensures !after.windowOpen && after.view.None? && after.sessions == st.sessions
  {
    ControllerState(false, None, st.sessions)
  }

  /**
   * A view attached to the window exactly while the window is open and
   * exactly when it has listeners (both happen in the same navigation),
   * placed whenever attached, and bound to one of the two partitions.
   */
  ghost predicate StateInvariant(st: ControllerState)
  {
    st.view.Some? ==>
      var v := st.view.value;
      (v.attached <==> st.windowOpen) && (v.attached <==> v.listeners != []) &&
      (v.attached ==> v.bounds.Some?) &&
      (v.partition == DefaultPartition || v.partition == VpnPartition)
  }

  lemma InitialStateValid()
    ensures StateInvariant(InitialState)
  {
  }

  lemma {:induction false} NavigatePreservesInvariant(st: ControllerState, input: Option<string>, opts: NavigationOptions,
                                                        content: Rect, pick: UserAgentIndex, outcome: LoadOutcome)
    requires StateInvariant(st)
    ensures StateInvariant(NavigateSpec(st, input, opts, content, pick, outcome).after)
  {
  }

  lemma ClosePreservesInvariant(st: ControllerState)
    ensures StateInvariant(CloseSpec(st))
  {
  }

  /**
   * A blank input (absent, empty or exactly `about:blank`) with the window
   * open succeeds with `about:blank` and leaves no view; with no view it
   * changes nothing at all.
   */
  lemma BlankClearsView(st: ControllerState, input: Option<string>, opts: NavigationOptions,
                        content: Rect, pick: UserAgentIndex, outcome: LoadOutcome)
    requires IsBlankInput(input) && (st.windowOpen || st.view.None?)
    ensures NavigateSpec(st, input, opts, content, pick, outcome).result == Navigated(BlankUrl, None)
    ensures NavigateSpec(st, input, opts, content, pick, outcome).after.view.None?
    ensures st.view.None? ==> NavigateSpec(st, input, opts, content, pick, outcome).after == st
  {
  }

  /**
   * With the window open a non-blank navigation always leaves a view; a new
   * view is created only when there was none, bound to `persist:vpn`
   * exactly when the VPN flag is on.
   */
  lemma ViewCreatedOnlyWhenAbsent(st: ControllerState, input: Option<string>, opts: NavigationOptions,
                                  content: Rect, pick: UserAgentIndex, outcome: LoadOutcome)
    requires !IsBlankInput(input) && st.windowOpen && st.view.None?
    ensures var v := NavigateSpec(st, input, opts, content, pick, outcome).after.view;
      v.Some? && v.value.attached && (v.value.partition == VpnPartition <==> opts.vpnEnabled) &&
      |v.value.listeners| == 1
  {
  }

  /**
   * An existing view is reused whatever the VPN flag says now: its
   * partition, attachment and earlier listener sets are kept.
   */
  lemma ViewReusedKeepsPartition(st: ControllerState, input: Option<string>, opts: NavigationOptions,
                                 content: Rect, pick: UserAgentIndex, outcome: LoadOutcome)
    requires !IsBlankInput(input) && st.view.Some?
    ensures var v := NavigateSpec(st, input, opts, content, pick, outcome).after.view;
      v.Some? && v.value.partition == st.view.value.partition &&
      v.value.attached == st.view.value.attached &&
      v.value.listeners[..|st.view.value.listeners|] == st.view.value.listeners
  {
  }

  /**
   * Every navigation that gets past the window adds exactly one listener
   * set, capturing its final address, and places the view below the header.
   */
  lemma ListenersAccumulate(st: ControllerState, raw: string, opts: NavigationOptions,
                            content: Rect, pick: UserAgentIndex, outcome: LoadOutcome)
    requires !IsBlankInput(Some(raw)) && st.windowOpen
    ensures var v := NavigateSpec(st, Some(raw), opts, content, pick, outcome).after.view;
      v.Some? &&
      v.value.listeners == (if st.view.Some? then st.view.value.listeners else []) + [ListenerSet(FinalUrl(raw, opts))] &&
      v.value.bounds == Some(ViewBounds(content))
  {
  }

  /**
   * The result of a navigation that gets past the window follows the load:
   * the final address and the title, or the rejection's message. Either
   * way the view stays.
   */
  lemma NavigationResultFollowsLoad(st: ControllerState, raw: string, opts: NavigationOptions,
                                    content: Rect, pick: UserAgentIndex, outcome: LoadOutcome)
    requires !IsBlankInput(Some(raw)) && st.windowOpen
    ensures var step := NavigateSpec(st, Some(raw), opts, content, pick, outcome);
      step.after.view.Some? && step.after.windowOpen &&
      (outcome.Loaded? ==> step.result == Navigated(FinalUrl(raw, opts), Some(outcome.title))) &&
      (outcome.LoadFailed? ==> step.result == NavigationFailed(outcome.message))
  {
  }

  /**
   * The policy goes onto the session of the view's partition, which for a
   * reused view may differ from the one the VPN flag names; the other
   * partition's policy is not touched.
   */
  lemma PolicyFollowsViewPartition(st: ControllerState, input: Option<string>, opts: NavigationOptions,
                                   content: Rect, pick: UserAgentIndex, outcome: LoadOutcome, other: string)
    requires !IsBlankInput(input) && st.windowOpen
    ensures var after := NavigateSpec(st, input, opts, content, pick, outcome).after;
      after.view.Some? &&
      PolicyOf(after.sessions, after.view.value.partition) ==
        Configure(PolicyOf(st.sessions, after.view.value.partition), opts, pick) &&
      (other != after.view.value.partition ==> PolicyOf(after.sessions, other) == PolicyOf(st.sessions, other))
  {
    var after := NavigateSpec(st, input, opts, content, pick, outcome).after;
    assert after.sessions == ConfigureSession(st.sessions, after.view.value.partition, opts, pick);
  }

  /**
   * With the default options `{}` a navigation loads the resolved address
   * itself, and the configuration step leaves the session's policy as it was.
   */
  lemma DefaultOptionsLeaveSessionAlone(raw: string, policy: Policy, pick: UserAgentIndex)
    ensures FinalUrl(raw, NoOptions) == ResolveAddress(raw)
    ensures Configure(policy, NoOptions, pick) == policy
  {
  }

  /**
   * With the window closed nothing is attached: a navigation fails with the
   * TypeError of the first window call, a blank one keeps any view, and a
   * non-blank one without a view leaves an unattached view behind.
   */
  lemma ClosedWindowFails(st: ControllerState, input: Option<string>, opts: NavigationOptions,
                          content: Rect, pick: UserAgentIndex, outcome: LoadOutcome)
    requires StateInvariant(st) && !st.windowOpen && !(IsBlankInput(input) && st.view.None?)
    ensures var step := NavigateSpec(st, input, opts, content, pick, outcome);
      step.result.NavigationFailed? && step.after.sessions == st.sessions &&
      step.after.view.Some? && !step.after.view.value.attached &&
      (st.view.Some? ==> step.after == st)
  {
  }

  /** A signal the view's web contents emit. */
  datatype Signal = WillNavigate(navUrl: string) | DidNavigate(navUrl: string) | TitleUpdated(title: string) | DidFailLoad(description: string)

  /** A message sent to the host window's renderer. */
  datatype HostEvent =
    | PageNavigated(url: string)
    | PageLoaded(url: string, title: string)
    | PageTitleUpdated(title: string)
    | PageLoadFailed(error: string, url: string)

  /** What one listener set sends for a signal; `title` is what the view reports as its title at that moment. */
  function Forward(listenerSet: ListenerSet, signal: Signal, title: string): HostEvent
  {
    match signal
    case WillNavigate(u) => PageNavigated(u)
    case DidNavigate(u) => PageLoaded(u, title)
    case TitleUpdated(t) => PageTitleUpdated(t)
    case DidFailLoad(d) => PageLoadFailed(d, listenerSet.finalUrl)
  }

  /** Every registered listener set runs, in registration order, and each sends one message. */
  function ForwardAll(listeners: seq<ListenerSet>, signal: Signal, title: string): (events: seq<HostEvent>)
    ensures |events| == |listeners|
    ensures forall i :: 0 <= i < |listeners| ==> events[i] == Forward(listeners[i], signal, title)
  {
    if listeners == [] then [] else [Forward(listeners[0], signal, title)] + ForwardAll(listeners[1..], signal, title)
  }

  /** The messages one signal of the view produces; with the window closed there is nobody to send them to. */
  function Relay(st: ControllerState, signal: Signal, title: string): seq<HostEvent>
  {
    if st.view.Some? && st.windowOpen then ForwardAll(st.view.value.listeners, signal, title) else []
  }

  /**
   * A load failure is reported once per earlier navigation through the same
   * view, each time with the final address of the navigation that
   * registered the listener, not only the current one.
   */
  lemma FailureReportedPerListenerSet(st: ControllerState, description: string, title: string)
    requires st.view.Some? && st.windowOpen
    ensures var events := Relay(st, DidFailLoad(description), title);
      |events| == |st.view.value.listeners| &&
      forall i :: 0 <= i < |events| ==> events[i] == PageLoadFailed(description, st.view.value.listeners[i].finalUrl)
  {
  }

  /**
   * Two navigations from the initial state, both loaded, then a failed
   * load: the host hears about the failure twice, once with each address.
   */
  lemma TwoNavigationsRelayTwice(a: string, b: string, opts: NavigationOptions, content: Rect,
                                 pick: UserAgentIndex, t1: string, t2: string, description: string, title: string)
    requires !IsBlankInput(Some(a)) && !IsBlankInput(Some(b))
    ensures var s1 := NavigateSpec(InitialState, Some(a), opts, content, pick, Loaded(t1)).after;
      var s2 := NavigateSpec(s1, Some(b), opts, content, pick, Loaded(t2)).after;
      Relay(s2, DidFailLoad(description), title) ==
        [PageLoadFailed(description, FinalUrl(a, opts)), PageLoadFailed(description, FinalUrl(b, opts))]
  {
    var s1 := NavigateSpec(InitialState, Some(a), opts, content, pick, Loaded(t1)).after;
    ListenersAccumulate(InitialState, a, opts, content, pick, Loaded(t1));
    var s2 := NavigateSpec(s1, Some(b), opts, content, pick, Loaded(t2)).after;
    ListenersAccumulate(s1, b, opts, content, pick, Loaded(t2));
    FailureReportedPerListenerSet(s2, description, title);
  }

  /** The back and forward guards: a view must exist and its history must allow the move. */
  function HistoryMoveSucceeds(st: ControllerState, canMove: bool): bool
  {
    st.view.Some? && canMove
  }

  /** What the page scrape returns or throws; it runs inside the page and is not modelled. */
  datatype ScrapeOutcome = Scraped(title: string, text: string, url: string) | ScrapeThrew(message: string)

  datatype PageContent = PageContent(title: string, text: string, url: string)
  datatype ContentResult = ContentReturned(content: PageContent) | ContentFailed(error: string)

  /** The error `get-page-content` returns when there is no view. */
  const NoPageLoaded := "No page loaded"

  /** `get-page-content`: the scrape of the view's page, its failure, or `No page loaded` without a view. */
  function PageContentSpec(st: ControllerState, scrape: ScrapeOutcome): (r: ContentResult)
    ensures st.view.None? ==> r == ContentFailed(NoPageLoaded)
    ensures st.view.Some? && scrape.Scraped? ==> r == ContentReturned(PageContent(scrape.title, scrape.text, scrape.url))
    ensures st.view.Some? && scrape.ScrapeThrew? ==> r == ContentFailed(scrape.message)
  {
    if st.view.None? then ContentFailed(NoPageLoaded)
    else match scrape
      case Scraped(title, text, url) => ContentReturned(PageContent(title, text, url))
      case ScrapeThrew(message) => ContentFailed(message)
  }
}
