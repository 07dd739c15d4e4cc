/**
 * The options object passed with a navigation request. Every flag that is
 * absent from the object reads as false; `proxyUrl` may be absent.
 */
module Options {
  import opened Wrappers

  datatype NavigationOptions = NavigationOptions(
    proxyEnabled: bool,
    vpnEnabled: bool,
    proxyUrl: Option<string>,
    blockTrackers: bool,
    antiFingerprint: bool)

  /** The default `{}`: every flag off and no proxy override. */
  const NoOptions := NavigationOptions(false, false, None, false, false)
}
