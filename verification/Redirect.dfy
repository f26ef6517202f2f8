/** Redirect policies and the rules for carried headers (`cyper/src/redirect.rs`). */
module Redirect {
  import opened Prelude
  import opened HeaderMaps

  datatype UrlParts = UrlParts(
    scheme: string, username: string, password: Option<string>, host: Option<string>, port: Option<nat>,
    path: string, query: Option<string>, fragment: Option<string>)

  /** URLs without a host, with an empty one, or of scheme `file` have no place for credentials. */
  predicate TakesCredentials(u: UrlParts) {
    u.host.Some? && u.host.value != "" && u.scheme != "file"
  }

  type Url = u: UrlParts | !TakesCredentials(u) ==> u.username == "" && u.password.None?
    witness UrlParts("http", "", None, Some("a"), None, "/", None, None)

  function DefaultPort(scheme: string): Option<nat> {
    if scheme == "http" || scheme == "ws" then Some(80)
    else if scheme == "https" || scheme == "wss" then Some(443)
    else if scheme == "ftp" then Some(21)
    else None
  }

  function PortOrKnownDefault(u: Url): Option<nat> {
    if u.port.Some? then u.port else DefaultPort(u.scheme)
  }

  predicate SameOrigin(a: Url, b: Url) {
    a.host == b.host && PortOrKnownDefault(a) == PortOrKnownDefault(b)
  }

  datatype Action = Follow | Stop | Error

  /** A limit on the redirects followed, none at all, or a caller's own rule over status, next and previous URLs. */
  datatype Policy = Custom(decide: (nat, Url, seq<Url>) -> Action) | Limit(max: nat) | NoRedirects

  function Check(p: Policy, status: nat, next: Url, previous: seq<Url>): Action {
    match p
    case Custom(decide) => decide(status, next, previous)
    case Limit(max) => if |previous| > max then Error else Follow
    case NoRedirects => Stop
  }

  const SENSITIVE: set<string> := {"authorization", "cookie", "cookie2", "proxy-authorization", "www-authenticate"}

  const CONTENT: set<string> := {"content-length", "content-type", "transfer-encoding"}

  const REFERER: string := "referer"

  /** Drops credentials when the next URL is not on the host and port of the last one. */
  function RemoveSensitive(headers: Headers, next: Url, previous: seq<Url>): Headers {
    if previous == [] || SameOrigin(next, previous[|previous| - 1]) then headers else headers - SENSITIVE
  }

  /** The URL a Referer may reveal: without credentials and fragment. */
  function ForReferer(u: Url): (r: Url)
    ensures r.username == "" && r.password.None? && r.fragment.None?
    ensures r == u.(username := "", password := None, fragment := None)
  {
    var named := if TakesCredentials(u) then u.(username := "") else u;
    var bare := if TakesCredentials(named) then named.(password := None) else named;
    bare.(fragment := None)
  }

  /** The Referer for the next request; `text` serialises a URL as a field value where that is possible. */
  function MakeReferer(text: Url -> Option<string>, next: Url, previous: Url): Option<string> {
    if next.scheme == "http" && previous.scheme == "https" then None else text(ForReferer(previous))
  }
}
