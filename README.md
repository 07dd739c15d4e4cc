# Flow browser navigation controller in Dafny

This project models the navigation controller of the Flow browser's Electron
main process (`flow-browser/main.js`). That is the code that turns what the
user typed into an address and loads it in the single embedded view, the
`BrowserView` held in `currentView`. It covers:

- the `navigate` IPC handler:
  - the blank check;
  - `String.prototype.trim`;
  - the URL-or-search regular expression;
  - the search rewrite through `encodeURIComponent`;
  - the `https://` prefix;
  - the proxy rewrite;
  - creating or reusing the view and choosing its storage partition;
  - placing the view below the 120-pixel header;
  - the per-session privacy configuration: the permission handler, the user-agent pick and the tracker blocklist;
  - registering the four event listeners;
  - the load and its result;
- the `go-back`, `go-forward`, `reload`, `stop` and `get-page-content` guards;
- the window's `closed` handler;
- the `certificate-error` decision.

Layout, one module per file:

| file | module | contents |
|---|---|---|
| `wrappers.dfy` | `Wrappers` | `Option` |
| `text.dfy` | `Text` | `startsWith`, `includes`, `trim` with the ECMAScript whitespace set, the `\w` class |
| `uri_codec.dfy` | `UriCodec` | `encodeURIComponent` over UTF-8 as ECMA-262 (section 19.2.6.5) defines it, and a validating `decodeURIComponent` as its partner |
| `resolver.dfy` | `Resolver` | lines 61-81: the blank check and address resolution |
| `options.dfy` | `Options` | the options object of a navigation |
| `traffic_filter.dfy` | `TrafficFilter` | the blocklist (lines 147-154) and the proxy rewrite (lines 84-89) |
| `sessions.dfy` | `Sessions` | partitions, the denied permissions, the user-agent pool, and the policy installed on a session |
| `geometry.dfy` | `Geometry` | the view bounds (lines 107-114) |
| `certificates.dfy` | `Certificates` | lines 286-292 |
| `navigation_model.dfy` | `NavigationModel` | the controller as a function over values: the state and the result of every handler, with the properties proved |
| `controller.dfy` | `Navigation` | the controller as the program keeps it, described below |

The controller class in `controller.dfy` works like this:

- The two module-level slots `mainWindow` and `currentView` are fields of `Navigation.Controller`.
- The view is a `Navigation.Surface` that the handlers update in place.
- `finalUrl` is reassigned step by step in `Navigation.ComputeFinalUrl`.
- Messages sent to the host renderer are appended to a log.
- The `navigate` handler and its parts (`ClearView`, `Load`), `Close`, `Dispatch` and `GetPageContent` tie the new state and the result to their `NavigationModel` functions. `ConfigureViewSession` ties the session table to `Sessions.ConfigureSession`. The history guards and `Reload`/`Stop` state their result in terms of the current view.
- A ghost set records every view ever created. `Navigate` and `Load` add exactly the view they create, and the other state-changing methods leave the set alone, so a dropped view stays destroyed across calls.

The oracle parameters stand for things the controller cannot compute:

- the outcome of the page load;
- what the view's history reports for back and forward;
- the page scrape;
- the index the random user-agent pick lands on;
- the window's content bounds.

The model follows the code where it differs from what its comments and layout suggest:

- **Regex anchoring.** The `^` in `/^(https?:\/\/)|(www\.)|(\w+\.\w+)/` anchors only the first alternative. So `www.` or `word.word` anywhere makes the input a URL (`Resolver.ClassifiesAsUrl`, `Resolver.WwwAnywhereIsUrl`, `Resolver.WordDotWordAnywhereIsUrl`).
- **Blank check before trimming.** The blank check looks at the input before it is trimmed. So `"   "` becomes a search for the empty string, and a padded `about:blank` becomes a search for `about%3Ablank` (`Resolver.WhitespaceInputSearchesEmpty`, `Resolver.ResolvesPaddedSentinelAsSearch`).
- **Partition fixed at creation.**
  - The partition is chosen only when the view is created, so a later VPN toggle reuses the old view and partition.
  - The session policy is installed on the view's own partition, not on the one the VPN flag now names (`NavigationModel.ViewReusedKeepsPartition`, `NavigationModel.PolicyFollowsViewPartition`).
- **Listeners accumulate.**
  - Every navigation that gets as far as line 159 registers four more listeners on the same view.
  - A later load failure is then reported once per earlier navigation, each time with that navigation's own address (`NavigationModel.ListenersAccumulate`, `NavigationModel.TwoNavigationsRelayTwice`).
- **Handlers are sticky.** Handlers installed by an earlier `blockTrackers` navigation stay on the session when later navigations leave the option off (`Sessions.HandlersAreSticky`).
- **Exact permission names.** The permission list is compared exactly, so `midiSysex` is refused while `midi-sysex` is granted (`Sessions.SysexSpellings`).
- **After the window closes.**
  - A navigation calls methods of the null `mainWindow`; the resulting TypeError is caught and returned as a failure.
  - A non-blank navigation with no view creates the view first (line 93), so an unattached view is left behind (`NavigationModel.ClosedWindowFails`).
- **Dead resize handler.** The resize handler at line 257 is registered through `mainWindow?.on` at module load, when `mainWindow` is still undefined. So it never runs. The bounds the model keeps are the bounds the last navigation set.
- **Load failure keeps the view.** A failed load keeps the view (the catch at lines 191-196 does not tear it down).

## Model

| member | source | states |
|---|---|---|
| Text.ContainsIffOccurs | flow-browser/main.js:86 | the left-to-right scan used for `includes` finds `p` exactly when `p` occurs at some index of `s` |
| Text.ContainsInfix | flow-browser/main.js:86 | an occurrence is found whatever surrounds it |
| Text.TrimStartCutsWhitespace | flow-browser/main.js:71 | everything `trimStart` removes is JavaScript whitespace |
| Text.TrimEndCutsWhitespace | flow-browser/main.js:71 | everything `trimEnd` removes is JavaScript whitespace |
| Text.Trim | flow-browser/main.js:71 | the trimmed string is no longer than the input and neither starts nor ends with whitespace |
| Text.TrimFramed | flow-browser/main.js:71 | `trim` returns a slice of its input with only whitespace cut away on both sides |
| Text.TrimIdempotent | flow-browser/main.js:71 | trimming twice is trimming once |
| Text.TrimAllWhitespace | flow-browser/main.js:71 | an all-whitespace string trims to the empty string |
| Text.TrimUnpadded | flow-browser/main.js:71 | a string that neither starts nor ends with whitespace trims to itself |
| Text.TrimPadded | flow-browser/main.js:71 | one whitespace character on each side of an unpadded core is exactly what `trim` removes |
| Text.HasWordDotWordIff | flow-browser/main.js:74 | the scan for `\w+\.\w+` succeeds exactly when some dot has a word character on both sides |
| Text.NoDotNoMatch | flow-browser/main.js:74 | without a dot neither `www.` nor `\w+\.\w+` can match |
| UriCodec.EncodeAlphabet | flow-browser/main.js:78 | the output of `encodeURIComponent` uses only unreserved characters and `%` |
| UriCodec.EncodeLengthens | flow-browser/main.js:87 | `encodeURIComponent` never shortens its input |
| UriCodec.EncodeKeepsUnreserved | flow-browser/main.js:78 | a string of unreserved characters encodes to itself |
| UriCodec.EncodeAppend | flow-browser/main.js:78 | encoding distributes over concatenation |
| UriCodec.EncodeAround | flow-browser/main.js:78 | between two unreserved runs only the middle character is escaped |
| UriCodec.EncodeReservedAscii | flow-browser/main.js:78 | a reserved ASCII character encodes to one upper-case `%XY` of its code |
| UriCodec.DecodeOneOfEncoded | flow-browser/main.js:78 | the encoding of one character (1 to 4 UTF-8 escapes) decodes back to that character, consuming exactly its length |
| UriCodec.DecodeEncode | flow-browser/main.js:78 | decoding undoes `encodeURIComponent` for every string |
| UriCodec.EncodeInjective | flow-browser/main.js:78 | different strings encode differently |
| Resolver.ResolveAddressHasScheme | flow-browser/main.js:71-81 | every resolved address starts with `http://` or `https://` |
| Resolver.Resolve | flow-browser/main.js:61-81 | the input is blank exactly when it is absent, empty or exactly `about:blank`; any other input resolves to an address with a scheme |
| Resolver.SearchQueryRoundTrip | flow-browser/main.js:74-78 | input the regular expression rejects resolves to the Google search endpoint followed by a query that decodes back to the trimmed input |
| Resolver.SchemeInputKept | flow-browser/main.js:79 | input that carries a scheme comes back trimmed and otherwise unchanged |
| Resolver.BareUrlGetsOneScheme | flow-browser/main.js:79-81 | any other URL gets exactly `https://` in front of the trimmed input, with no second scheme after it |
| Resolver.ResolveAddressIgnoresPadding | flow-browser/main.js:71 | resolution of a non-blank input depends only on its trimmed form |
| Resolver.WhitespaceInputSearchesEmpty | flow-browser/main.js:61-78 | non-empty all-whitespace input is not blank and becomes a search for the empty query |
| Resolver.WwwAnywhereIsUrl | flow-browser/main.js:74 | `www.` anywhere classifies the input as a URL |
| Resolver.WordDotWordAnywhereIsUrl | flow-browser/main.js:74 | a word character, a dot and a word character anywhere classify the input as a URL |
| Resolver.NoDotNoSchemeIsSearch | flow-browser/main.js:74-76 | text with no dot whose first character is not `h` is a search query |
| Resolver.WordsAreNotBlank | flow-browser/main.js:61 | two words joined by a separator other than `:` are never blank |
| Resolver.NoSchemeAfterWord | flow-browser/main.js:74 | two words joined by a separator other than `:` never match the anchored `https?://` alternative |
| Resolver.BareDomainAddress | flow-browser/main.js:74-80 | a bare domain `a.b` (any two words, `hello.com` included), as an address, gets `https://` in front |
| Resolver.ResolvesBareDomain | flow-browser/main.js:61-80 | a bare domain such as `openai.com` or `hello.com` resolves to `https://` followed by it |
| Resolver.EncodeWordsWithSpace | flow-browser/main.js:78 | two words and a space encode with only the space escaped, as `%20` |
| Resolver.SpacedWordsShape | flow-browser/main.js:74 | two words joined by a space are not URL-shaped, whatever letter they start with |
| Resolver.SpacedWordsAddress | flow-browser/main.js:71-78 | two dot-free words and a space resolve to a search for the words joined by `%20` |
| Resolver.ResolvesTwoWordSearch | flow-browser/main.js:61-78 | the input `best pizza` or `hot pizza` (any two words) navigates to the search for `best%20pizza` |
| Resolver.SentinelNotUrl | flow-browser/main.js:74 | `about:blank` itself is not URL-shaped |
| Resolver.SentinelEncoding | flow-browser/main.js:78 | `about:blank` encodes as `about%3Ablank` |
| Resolver.SentinelAddressIsSearch | flow-browser/main.js:71-78 | resolved as an address, `about:blank` is a search for `about%3Ablank` |
| Resolver.PaddedAddress | flow-browser/main.js:71 | a core padded with one whitespace character on each side resolves as the core does |
| Resolver.PaddingIgnoredWhenNotBlank | flow-browser/main.js:61-81 | a padded input that is not itself the sentinel navigates where its core would |
| Resolver.ResolvesPaddedSentinelAsSearch | flow-browser/main.js:61-78 | `about:blank` padded with whitespace is not blank and becomes a search for `about%3Ablank` |
| TrafficFilter.SomeContainedIffOccurs | flow-browser/main.js:153 | `some` over the entries with `includes` holds exactly when some entry occurs in the URL |
| TrafficFilter.BlockedIffSomeEntryOccurs | flow-browser/main.js:147-154 | a request is blocked exactly when one of the 11 entries is a case-sensitive substring of its URL |
| TrafficFilter.DoubleclickAlwaysBlocked | flow-browser/main.js:147-154 | a URL containing `doubleclick.net` is always blocked |
| TrafficFilter.NoEntryNeverBlocked | flow-browser/main.js:147-154 | a URL in which no entry occurs is never blocked |
| TrafficFilter.ProxyEndpoint | flow-browser/main.js:85 | the endpoint is the override when it is present and non-empty, and the allorigins default otherwise; never empty |
| TrafficFilter.ProxyRewritesIff | flow-browser/main.js:84-89 | the address changes exactly when the proxy flag is on and the endpoint does not already occur in it |
| TrafficFilter.ProxyRoundTrip | flow-browser/main.js:86-87 | a rewritten address is the endpoint followed by an encoding that decodes back to the original address |
| TrafficFilter.NoProxyFlagNoRewrite | flow-browser/main.js:84-89 | without the proxy flag, the VPN flag alone included, the address is unchanged |
| TrafficFilter.ProxyIdempotent | flow-browser/main.js:86 | a second rewrite of a rewritten address changes nothing |
| Sessions.PartitionFor | flow-browser/main.js:98 | a new view is bound to `persist:vpn` exactly when the VPN flag is on, and to `persist:default` otherwise |
| Sessions.HandlerGrants | flow-browser/main.js:128-129 | a permission is refused exactly when it equals one of the five denied names |
| Sessions.Configure | flow-browser/main.js:126-156 | `blockTrackers` installs the permission handler and the request filter, `antiFingerprint` sets the picked user agent from the pool, and anything an option does not install stays as it was |
| Sessions.ConfigureSession | flow-browser/main.js:124-156 | the configuration step changes the policy of the given partition only |
| Sessions.ConfigureIdempotent | flow-browser/main.js:124-156 | repeating a navigation's configuration with the same options and pick changes nothing more |
| Sessions.HandlersAreSticky | flow-browser/main.js:126-156 | installed handlers survive later navigations that leave `blockTrackers` off |
| Sessions.PermissionGranted | flow-browser/main.js:126-131 | without the handler every permission is granted; with it, exactly the names the handler grants |
| Sessions.SysexSpellings | flow-browser/main.js:128 | `midiSysex` is refused and `midi-sysex` is granted |
| Sessions.RequestCancelled | flow-browser/main.js:145-155 | a request is cancelled exactly when the session filters requests, its URL passes the listener's `*://*/*` filter (an `http` or `https` URL with a host) and it is on the blocklist |
| Sessions.OnlyWebRequestsCancelled | flow-browser/main.js:146 | a request whose URL does not start with `http` (a `file:` or `data:` URL) never reaches the listener, so it is never cancelled |
| Sessions.AdsHostCancelled | flow-browser/main.js:146-154 | an `https` request to an `ads.` host is cancelled once the session filters requests |
| Geometry.ViewBounds | flow-browser/main.js:107-114 | the view sits at `x = 0`, `y = 120`, spans the content width and ends at the content's bottom edge (`y + height == content.height`) |
| Geometry.ViewFillsBelowHeader | flow-browser/main.js:107-114 | for content at least 120 pixels tall the view fits inside it; the view's height is negative exactly when the content is shorter |
| Certificates.OnCertificateError | flow-browser/main.js:286-292 | a certificate is trusted, and the default rejection suppressed, exactly when `NODE_ENV` is `development` |
| NavigationModel.CloseSpec | flow-browser/main.js:39-45 | after `closed` there is no window and no view, and the sessions are untouched |
| NavigationModel.InitialStateValid | flow-browser/main.js:5-6 | the initial state, with no view, satisfies the controller invariant |
| NavigationModel.NavigatePreservesInvariant | flow-browser/main.js:59-198 | every navigation keeps the invariant: a view is attached exactly while the window is open and exactly when it has listeners, is placed whenever attached, and is bound to one of the two partitions |
| NavigationModel.ClosePreservesInvariant | flow-browser/main.js:39-45 | closing the window keeps the invariant |
| NavigationModel.BlankClearsView | flow-browser/main.js:61-67 | a blank input with the window open succeeds with `about:blank` and leaves no view; with no view it changes nothing |
| NavigationModel.ViewCreatedOnlyWhenAbsent | flow-browser/main.js:92-104 | with no view, a navigation creates one, attached, bound to `persist:vpn` exactly when the VPN flag is on, with one listener set |
| NavigationModel.ViewReusedKeepsPartition | flow-browser/main.js:92-104 | an existing view is reused with its partition, attachment and earlier listener sets, whatever the VPN flag says now |
| NavigationModel.ListenersAccumulate | flow-browser/main.js:106-180 | every navigation past the window adds exactly one listener set, capturing its final address, and places the view below the header |
| NavigationModel.NavigationResultFollowsLoad | flow-browser/main.js:183-196 | a navigation past the window returns the final address and title when the load succeeds, the rejection's message when it fails, and keeps the view either way |
| NavigationModel.PolicyFollowsViewPartition | flow-browser/main.js:124-156 | the policy is installed on the session of the view's own partition, and the other partitions are left alone |
| NavigationModel.DefaultOptionsLeaveSessionAlone | flow-browser/main.js:59-156 | with the default `{}` options the resolved address is loaded as is and no session policy changes |
| NavigationModel.ClosedWindowFails | flow-browser/main.js:61-196 | with the window closed a navigation fails with the TypeError of the first window call, keeps the sessions, attaches nothing, and changes nothing when a view existed |
| NavigationModel.ForwardAll | flow-browser/main.js:159-180 | one message per registered listener set, in registration order |
| NavigationModel.FailureReportedPerListenerSet | flow-browser/main.js:175-180 | a load failure is reported once per listener set, each with the final address of the navigation that registered it |
| NavigationModel.TwoNavigationsRelayTwice | flow-browser/main.js:159-180 | after two navigations from the start, one load failure is reported twice, once with each final address |
| NavigationModel.PageContentSpec | flow-browser/main.js:237-254 | without a view the result is `No page loaded`; with one, the scrape's content or its error |
| Navigation.Controller.constructor | flow-browser/main.js:5-6 | the controller starts with the window open, no view, no configured session and nothing sent |
| Navigation.Controller.AtMostOneLive | flow-browser/main.js:92-104 | of all views ever created, at most one is live, and it is the current view; the methods' contracts keep the set of created views up to date, so this holds across calls |
| Navigation.Controller.Navigate | flow-browser/main.js:59-198 | the new state and the result are those `NavigateSpec` gives for the old state; the invariant is kept, nothing is sent, and the current view is kept, dropped (and then destroyed) or freshly created and added to the views ever created |
| Navigation.Controller.ClearView | flow-browser/main.js:61-67 | the blank path, as `ClearSpec` gives it |
| Navigation.Controller.Load | flow-browser/main.js:92-189 | create or reuse, place, configure, listen and load, as `NavigateTo` gives it |
| Navigation.Controller.ConfigureViewSession | flow-browser/main.js:124-156 | the session table becomes `ConfigureSession` of the old one for the view's partition; nothing else changes |
| Navigation.Controller.Close | flow-browser/main.js:39-45 | the new state is `CloseSpec` of the old one, the invariant is kept and the dropped view is destroyed |
| Navigation.Controller.Dispatch | flow-browser/main.js:159-180 | a signal of the view appends exactly the messages `Relay` gives and changes no state |
| Navigation.Controller.GoBack | flow-browser/main.js:201-207 | succeeds exactly when there is a view and it can go back |
| Navigation.Controller.GoForward | flow-browser/main.js:210-216 | succeeds exactly when there is a view and it can go forward |
| Navigation.Controller.Reload | flow-browser/main.js:219-225 | succeeds exactly when there is a view |
| Navigation.Controller.Stop | flow-browser/main.js:228-234 | succeeds exactly when there is a view |
| Navigation.Controller.GetPageContent | flow-browser/main.js:237-254 | returns what `PageContentSpec` gives for the current state |
| Navigation.ComputeFinalUrl | flow-browser/main.js:71-89 | the step-by-step reassignment of `finalUrl` computes `FinalUrl`, resolution followed by the proxy step |
| Navigation.ForwardEach | flow-browser/main.js:159-180 | running the listener sets in order yields exactly `ForwardAll` |
| Navigation.ForwardAllSnoc | flow-browser/main.js:159-180 | one more listener set appends its own message |

## Left out

- Window creation, the development-server or `loadFile` choice, `ready-to-show`, and the app lifecycle (`window-all-closed`, `activate`, lines 8-37 and 271-283): Electron plumbing with no decision logic. In particular, a window re-created by `activate` is not modelled, so a closed window stays closed.
- The Content-Security-Policy header injection on the default session (lines 48-55): static configuration delivered through a foreign callback.
- The `executeJavaScript` page scrape (lines 240-247): it runs DOM code in the page, so its outcome is a parameter; only the no-view guard and the result shape are modelled.
- The random user-agent draw (line 140): floating point and nondeterministic, so it is a parameter, an index into the three-entry pool.
- The real page load, the title the page reports, history, and the content bounds of the window: oracle parameters.
- Asynchrony: the `await`s at lines 127 and 183 let other handlers run in between (a `closed` event during a load, say). Each handler is modelled as running to completion.
- IPC delivery: messages sent to the renderer are an appended log.
- `setAutoResize` (lines 116-121): Electron then grows and shrinks the view's width and height with the window. That later change is not modelled, so `bounds` is only what the last navigation set.
- The resize handler (lines 257-268): it is never installed, as explained above.
- Lone surrogates, on which `encodeURIComponent` throws: Dafny strings hold Unicode scalar values, so that input cannot occur. Every other character is encoded in full.
- `console.error` logging in the catch (line 192).
- Sessions.RequestCancelled: the `*` scheme of the URL filter is read as `http` or `https`; any further schemes the platform's match-pattern `*` admits, such as WebSocket, are not modelled.
- NavigationModel.NavigateTo: the load outcome is an oracle and is not tied to the request filter the same navigation installs. In the program a blocklisted main-frame address (`tracker.example.com` with `blockTrackers`, say) is cancelled, so the load rejects; the model still allows a successful outcome for it.
- An explicit `null` options argument: the default `{}` (line 59) replaces only `undefined`, so `null` makes line 84 throw a TypeError, which the catch returns as a failure. `Options.NavigationOptions` cannot be null, so the model does not represent that call.
- `tailwind.config.js`: styling data with no logic.
