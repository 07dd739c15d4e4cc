/**
 * The navigation controller as the program keeps it: the module-level
 * window and view slots, updated in place by the IPC handlers and the
 * window's `closed` handler. Each handler is proved against its function
 * in NavigationModel.
 */
module Navigation {
  import opened Wrappers
  import opened Text
  import opened UriCodec
  import opened Resolver
  import opened Options
  import opened TrafficFilter
  import opened Sessions
  import opened Geometry
  import opened NavigationModel

  /** A BrowserView: bound to one partition for life, attached, placed and listened to by the handlers. */
  class Surface {
    const partition: string
    var attached: bool
    var destroyed: bool
    var bounds: Option<Rect>
    var listeners: seq<ListenerSet>

    constructor (partition: string)
      ensures this.partition == partition
      ensures !attached && !destroyed && bounds.None? && listeners == []
    {
      this.partition := partition;
      attached := false;
      destroyed := false;
      bounds := None;
      listeners := [];
    }

    function State(): SurfaceState
      reads this
    {
      SurfaceState(partition, attached, bounds, listeners)
    }
  }

  class Controller {
    /** `mainWindow` is not null. */
    var windowOpen: bool
    /** `currentView`. */
    var view: Surface?
    /** The policy installed on each partition's session. */
    var sessions: map<string, Policy>
    /** Every message sent to the host renderer so far. */
    var sent: seq<HostEvent>
    /** Every view ever created. */
    ghost var surfaces: set<Surface>

    /** The current view is live and every other view ever created is destroyed. */
    ghost predicate Valid()
      reads this, surfaces
    {
      (view != null ==> view in surfaces && !view.destroyed) &&
      (forall s :: s in surfaces && s != view ==> s.destroyed) &&
      StateInvariant(State())
    }

    function State(): ControllerState
      reads this, view
    {
      ControllerState(windowOpen, if view == null then None else Some(view.State()), sessions)
    }

    constructor ()
      ensures Valid() && fresh(this)
      ensures State() == InitialState && sent == [] && surfaces == {}
    {
      windowOpen := true;
      view := null;
      sessions := map[];
      sent := [];
      surfaces := {};
    }

    /** Live views: at most one, the current one. */
    lemma AtMostOneLive(s: Surface, t: Surface)
      requires Valid() && s in surfaces && t in surfaces && !s.destroyed && !t.destroyed
      ensures s == t && s == view
    {
    }

    /** The `navigate` handler, step by step as the program runs it. */
    method Navigate(input: Option<string>, opts: NavigationOptions, content: Rect,
                    pick: UserAgentIndex, outcome: LoadOutcome) returns (result: NavigationResult)
      requires Valid()
      modifies this, view
      ensures Valid()
      ensures Step(State(), result) == NavigateSpec(old(State()), input, opts, content, pick, outcome)
      ensures sent == old(sent)
      ensures old(view) != null ==> view == old(view) || view == null
      ensures old(view) == null && view != null ==> fresh(view) && surfaces == old(surfaces) + {view}
      ensures !(old(view) == null && view != null) ==> surfaces == old(surfaces)
      ensures old(view) != null && view == null ==> old(view).destroyed
    {
      if input.None? || input.value == "" || input.value == BlankUrl {
        result := ClearView();
      } else {
        var finalUrl := ComputeFinalUrl(input.value, opts);
        result := Load(finalUrl, opts, content, pick, outcome);
      }
    }

    /** Lines 61-67: the view, if any, is removed from the window and destroyed. */
    method ClearView() returns (result: NavigationResult)
      requires Valid()
      modifies this, view
      ensures Valid()
      ensures Step(State(), result) == ClearSpec(old(State()))
      ensures sent == old(sent) && (view == null || view == old(view)) && surfaces == old(surfaces)
    {
      if view != null {
        if !windowOpen {
          return NavigationFailed(NullRemoveBrowserView);
        }
        view.attached := false;
        view.destroyed := true;
        view := null;
      }
      return Navigated(BlankUrl, None);
    }

    /** Lines 91-189 for the final address `url`: create or reuse, place, configure, listen, load. */
    method Load(url: string, opts: NavigationOptions, content: Rect,
                pick: UserAgentIndex, outcome: LoadOutcome) returns (result: NavigationResult)
      requires Valid()
      modifies this, view
      ensures Valid()
      ensures Step(State(), result) == NavigateTo(old(State()), url, opts, content, pick, outcome)
      ensures sent == old(sent)
      ensures old(view) != null ==> view == old(view)
      ensures old(view) == null && view != null ==> fresh(view) && surfaces == old(surfaces) + {view}
      ensures !(old(view) == null && view != null) ==> surfaces == old(surfaces)
    {
      if view == null {
        var created := new Surface(PartitionFor(opts.vpnEnabled));
        view := created;
        surfaces := surfaces + {created};
        if !windowOpen {
          return NavigationFailed(NullAddBrowserView);
        }
        created.attached := true;
      }
      if !windowOpen {
        return NavigationFailed(NullGetContentBounds);
      }
      ghost var before := view.State();
      view.bounds := Some(ViewBounds(content));
      var partition := view.partition;
      ConfigureViewSession(partition, opts, pick);
      view.listeners := view.listeners + [ListenerSet(url)];
      assert view.State() == Placed(before, content, url);
      match outcome
      case Loaded(title) =>
        result := Navigated(url, Some(title));
      case LoadFailed(message) =>
        result := NavigationFailed(message);
    }

    /** Lines 124-156: the handlers and user agent the options ask for, installed on `partition`'s session. */
    method ConfigureViewSession(partition: string, opts: NavigationOptions, pick: UserAgentIndex)
      modifies this
      ensures sessions == ConfigureSession(old(sessions), partition, opts, pick)
      ensures windowOpen == old(windowOpen) && view == old(view) && sent == old(sent) && surfaces == old(surfaces)
    {
      var policy := PolicyOf(sessions, partition);
      if opts.blockTrackers {
        policy := policy.(guardsPermissions := true);
      }
      if opts.antiFingerprint {
        policy := policy.(userAgent := Some(pick));
      }
      if opts.blockTrackers {
        policy := policy.(filtersRequests := true);
      }
      sessions := sessions[partition := policy];
    }

    /** The window's `closed` handler. */
    method Close()
      requires Valid()
      modifies this, view
      ensures Valid()
      ensures State() == CloseSpec(old(State())) && sent == old(sent) && surfaces == old(surfaces)
      ensures old(view) != null ==> old(view).destroyed
    {
      windowOpen := false;
      if view != null {
        view.destroyed := true;
        view := null;
      }
    }

    /** The view emits `signal` and every listener set registered on it sends its message. */
    method Dispatch(signal: Signal, title: string)
      requires Valid()
      modifies this
      ensures Valid()
      ensures State() == old(State()) && sent == old(sent) + Relay(old(State()), signal, title)
      ensures surfaces == old(surfaces)
    {
      if view != null && windowOpen {
        var events := ForwardEach(view.listeners, signal, title);
        sent := sent + events;
      }
    }

    /** `go-back`: `canGoBack` is what the view's history reports. */
    method GoBack(canGoBack: bool) returns (success: bool)
      ensures success <==> HistoryMoveSucceeds(State(), canGoBack)
    {
      success := view != null && canGoBack;
    }

    /** `go-forward`: `canGoForward` is what the view's history reports. */
    method GoForward(canGoForward: bool) returns (success: bool)
      ensures success <==> HistoryMoveSucceeds(State(), canGoForward)
    {
      success := view != null && canGoForward;
    }

    /** `reload`: succeeds exactly when there is a view. */
    method Reload() returns (success: bool)
      ensures success <==> State().view.Some?
    {
      success := view != null;
    }

    /** `stop`: succeeds exactly when there is a view. */
    method Stop() returns (success: bool)
      ensures success <==> State().view.Some?
    {
      success := view != null;
    }

    /** `get-page-content`. */
    method GetPageContent(scrape: ScrapeOutcome) returns (r: ContentResult)
      ensures r == PageContentSpec(State(), scrape)
    {
      if view == null {
        return ContentFailed(NoPageLoaded);
      }
      match scrape
      case Scraped(title, text, url) =>
        r := ContentReturned(PageContent(title, text, url));
      case ScrapeThrew(message) =>
        r := ContentFailed(message);
    }
  }

  /** Lines 71-89 of the handler: the address the navigation loads, reassigned step by step. */
  method ComputeFinalUrl(raw: string, opts: NavigationOptions) returns (finalUrl: string)
    ensures finalUrl == FinalUrl(raw, opts)
  {
    finalUrl := Trim(raw);
    if !ClassifiesAsUrl(finalUrl) {
      finalUrl := SearchEndpoint + EncodeUriComponent(finalUrl);
    } else if !StartsWith(finalUrl, "http://") && !StartsWith(finalUrl, "https://") {
      finalUrl := SecureScheme + finalUrl;
    }
    if opts.proxyEnabled || opts.vpnEnabled {
      var proxy := ProxyEndpoint(opts);
      if opts.proxyEnabled && !Contains(finalUrl, proxy) {
        finalUrl := proxy + EncodeUriComponent(finalUrl);
      }
    }
  }

  /** Runs the registered listener sets in order, collecting the message each one sends. */
  method ForwardEach(listeners: seq<ListenerSet>, signal: Signal, title: string) returns (events: seq<HostEvent>)
    ensures events == ForwardAll(listeners, signal, title)
  {
    events := [];
    var i := 0;
    while i < |listeners|
      invariant 0 <= i <= |listeners|
      invariant events == ForwardAll(listeners[..i], signal, title)
    {
      ForwardAllSnoc(listeners[..i], listeners[i], signal, title);
      assert listeners[..i + 1] == listeners[..i] + [listeners[i]];
      events := events + [Forward(listeners[i], signal, title)];
      i := i + 1;
    }
    assert listeners[..i] == listeners;
  }

  /** Forwarding to one more listener set appends its message. */
  lemma {:induction false} ForwardAllSnoc(listeners: seq<ListenerSet>, last: ListenerSet, signal: Signal, title: string)
    ensures ForwardAll(listeners + [last], signal, title) == ForwardAll(listeners, signal, title) + [Forward(last, signal, title)]
  {
    var l := listeners + [last];
    assert |ForwardAll(l, signal, title)| == |l|;
    assert forall i :: 0 <= i < |l| ==> ForwardAll(l, signal, title)[i] == Forward(l[i], signal, title);
  }
}
