/**
 * The front-controller plugin that sends visitors who are not logged in to the login page,
 * except on a fixed list of routes.
 */
module Protect {
  import opened Wrappers

  /** A whitelist entry; an entry without a module is about the default module. */
  datatype Entry = Entry(moduleName: Option<string>, controller: string, action: string)

  const DEFAULT_MODULE: string := "default"

  /** The routes that never require a login. */
  const WHITELIST: seq<Entry> := [
    Entry(None, "users", "login"),
    Entry(None, "error", "error"),
    Entry(Some("harvard-key"), "users", "login"),
    Entry(Some("harvard-key"), "auth", "login"),
    Entry(Some("harvard-key"), "auth", "choose")
  ]

  function EntryModule(e: Entry): string {
    e.moduleName.GetOr(DEFAULT_MODULE)
  }

  /** An entry matches a request when controller and action agree and, if the request names
      a module, the module agrees too. */
  predicate Matches(e: Entry, requestModule: Option<string>, controller: string, action: string) {
    && e.controller == controller && e.action == action
    && (requestModule.None? || EntryModule(e) == requestModule.value)
  }

  /** The loop of _requireLogin: false at the first matching entry, true when none matches. */
  function RequireLoginFrom(entries: seq<Entry>, requestModule: Option<string>, controller: string, action: string): (r: bool)
    ensures r <==> forall k :: 0 <= k < |entries| ==> !Matches(entries[k], requestModule, controller, action)
  {
    if entries == [] then true
    else if Matches(entries[0], requestModule, controller, action) then false
    else RequireLoginFrom(entries[1..], requestModule, controller, action)
  }

  /** _requireLogin over the plugin's whitelist. */
  function RequireLogin(requestModule: Option<string>, controller: string, action: string): (r: bool)
    ensures r <==> forall e :: e in WHITELIST ==> !Matches(e, requestModule, controller, action)
    ensures controller != "users" && controller != "error" && controller != "auth" ==> r
  {
    RequireLoginFrom(WHITELIST, requestModule, controller, action)
  }

  /** The verdict does not depend on the order of the entries. */
  lemma OrderDoesNotMatter(a: seq<Entry>, b: seq<Entry>, requestModule: Option<string>, controller: string, action: string)
    requires multiset(a) == multiset(b)
    ensures RequireLoginFrom(a, requestModule, controller, action) == RequireLoginFrom(b, requestModule, controller, action)
  {
    if RequireLoginFrom(a, requestModule, controller, action) {
      forall j | 0 <= j < |b| ensures !Matches(b[j], requestModule, controller, action) {
        assert b[j] in multiset(a);
        var k :| 0 <= k < |a| && a[k] == b[j];
      }
    } else if RequireLoginFrom(b, requestModule, controller, action) {
      forall k | 0 <= k < |a| ensures !Matches(a[k], requestModule, controller, action) {
        assert a[k] in multiset(b);
        var j :| 0 <= j < |b| && b[j] == a[k];
      }
    }
  }

  /** With a module in the request, exactly the five whitelisted routes are open. */
  lemma OpenRoutesWithModule(requestModule: string, controller: string, action: string)
    ensures !RequireLogin(Some(requestModule), controller, action) <==>
      || (requestModule, controller, action) == ("default", "users", "login")
      || (requestModule, controller, action) == ("default", "error", "error")
      || (requestModule, controller, action) == ("harvard-key", "users", "login")
      || (requestModule, controller, action) == ("harvard-key", "auth", "login")
      || (requestModule, controller, action) == ("harvard-key", "auth", "choose")
  {
    assert forall k :: 0 <= k < |WHITELIST| ==> WHITELIST[k] == [
      Entry(None, "users", "login"), Entry(None, "error", "error"), Entry(Some("harvard-key"), "users", "login"),
      Entry(Some("harvard-key"), "auth", "login"), Entry(Some("harvard-key"), "auth", "choose")][k];
  }

  /** Without a module in the request, only controller and action count. */
  lemma OpenRoutesWithoutModule(controller: string, action: string)
    ensures !RequireLogin(None, controller, action) <==>
      || (controller, action) == ("users", "login")
      || (controller, action) == ("error", "error")
      || (controller, action) == ("auth", "login")
      || (controller, action) == ("auth", "choose")
  {
    assert Matches(WHITELIST[0], None, controller, action) <==> (controller, action) == ("users", "login");
  }

  /** The address saved for after the login: the path, then "?" and the query string when
      the request has GET parameters. http_build_query is supplied as a function. */
  function SavedRedirect(pathInfo: string, get: seq<(string, string)>, buildQuery: seq<(string, string)> -> string): (r: string)
    ensures |pathInfo| <= |r| && r[..|pathInfo|] == pathInfo
    ensures get == [] <==> r == pathInfo
    ensures get != [] ==> r[|pathInfo|..] == "?" + buildQuery(get)
  {
    pathInfo + (if get != [] then "?" + buildQuery(get) else "")
  }

  /** preDispatch: a protected route visited without an identity saves the address and
      sends the visitor to default/users/login; otherwise the request goes on (None). */
  function PreDispatch(requestModule: Option<string>, controller: string, action: string, hasIdentity: bool,
                       pathInfo: string, get: seq<(string, string)>, buildQuery: seq<(string, string)> -> string): (r: Option<string>)
    ensures r.Some? <==> RequireLogin(requestModule, controller, action) && !hasIdentity
    ensures r.Some? ==> r.value == SavedRedirect(pathInfo, get, buildQuery)
  {
    if RequireLogin(requestModule, controller, action) && !hasIdentity then Some(SavedRedirect(pathInfo, get, buildQuery)) else None
  }
}
