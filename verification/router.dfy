/** The frontend router: its route table and the `beforeEach` navigation
    guard, which decides from the target route's meta fields and the session's
    login state whether to proceed or where to redirect. */
module Router {
  import opened Values
  import SessionStore
  import TokenEndpoint

  /** A route's meta fields; an absent field is false. */
  datatype Meta = Meta(public: bool, requiresAuth: bool, requiresGuest: bool)

  const NoMeta := Meta(false, false, false)

  datatype Route = Route(path: string, name: string, meta: Meta)

  /** The route table, in declaration order. */
  const Routes: seq<Route> := [
    Route("/login", "login", Meta(false, false, true)),
    Route("/signup", "signup", Meta(false, false, true)),
    Route("/auth/callback", "auth-callback", Meta(true, false, false)),
    Route("/", "home", Meta(false, true, false)),
    Route("/record", "record", Meta(false, true, false))
  ]

  /** The navigation target: the matched route's meta and the full path asked for. */
  datatype Target = Target(meta: Meta, fullPath: string)

  /** The guard's call to `next`: proceed, or redirect to a named route with
      an optional `redirect` query. */
  datatype Decision = Proceed | Redirect(name: string, redirectQuery: Option<string>)

  /** The decision of the guard for a target and a login state. */
  function Guard(to: Target, loggedIn: bool): (d: Decision)
    ensures to.meta.public ==> d == Proceed
    ensures d.Redirect? && d.name == "login" <==> !to.meta.public && to.meta.requiresAuth && !loggedIn
    ensures d.Redirect? && d.name == "login" ==> d.redirectQuery == Some(to.fullPath)
    ensures d.Redirect? && d.name == "home" <==>
      !to.meta.public && !(to.meta.requiresAuth && !loggedIn) && to.meta.requiresGuest && loggedIn
    ensures d.Redirect? && d.name == "home" ==> d.redirectQuery.None?
    ensures d.Redirect? ==> d.name in {"login", "home"}
  {
    if to.meta.public then Proceed
    else if to.meta.requiresAuth && !loggedIn then Redirect("login", Some(to.fullPath))
    else if to.meta.requiresGuest && loggedIn then Redirect("home", None)
    else Proceed
  }

  /** `beforeEach`: asks the session store whether the user is logged in, which
      may log an expired session out, then guards. */
  function BeforeEach(to: Target, s: SessionStore.Session, now: int): (r: (Decision, SessionStore.Session))
    ensures r.0 == Guard(to, SessionStore.IsLoggedIn(s, now).0)
    ensures r.1 == SessionStore.IsLoggedIn(s, now).1
  {
    var (loggedIn, s1) := SessionStore.IsLoggedIn(s, now);
    (Guard(to, loggedIn), s1)
  }

  /** ASCII lower case. */
  function Lower(c: char): char {
    if 'A' <= c <= 'Z' then (c as int + 32) as char else c
  }

  /** `path` spells `pattern` up to the case of ASCII letters. */
  predicate SameText(path: string, pattern: string) {
    |path| == |pattern| && forall i | 0 <= i < |path| :: Lower(path[i]) == Lower(pattern[i])
  }

  /** Whether a route's static path matches a requested path under the
      router's defaults (`sensitive: false`, `strict: false`): equal up to case,
      with one optional trailing '/' after a path that does not end in one.
      The regular expression's case folding leaves non-ASCII characters alone
      against the ASCII route paths of the table, so folding ASCII is exact here. */
  predicate Matches(pattern: string, path: string) {
    || SameText(path, pattern)
    || (&& |pattern| > 0 && pattern[|pattern| - 1] != '/'
        && |path| == |pattern| + 1 && path[|pattern|] == '/'
        && SameText(path[..|pattern|], pattern))
  }

  /** The meta of the route a path matches; a path no route matches has none. */
  function MetaOf(path: string): (m: Meta)
    ensures (exists i | 0 <= i < |Routes| :: Matches(Routes[i].path, path)) ==>
      exists i | 0 <= i < |Routes| :: Matches(Routes[i].path, path) && Routes[i].meta == m
    ensures (forall i | 0 <= i < |Routes| :: !Matches(Routes[i].path, path)) ==> m == NoMeta
  {
    Find(Routes, path)
  }

  function Find(rs: seq<Route>, path: string): (m: Meta)
    ensures (exists i | 0 <= i < |rs| :: Matches(rs[i].path, path)) ==>
      exists i | 0 <= i < |rs| :: Matches(rs[i].path, path) && rs[i].meta == m
    ensures (forall i | 0 <= i < |rs| :: !Matches(rs[i].path, path)) ==> m == NoMeta
  {
    if rs == [] then NoMeta
    else if Matches(rs[0].path, path) then rs[0].meta
    else
      var m := Find(rs[1..], path);
      assert forall i | 1 <= i < |rs| :: rs[i] == rs[1..][i - 1];
      m
  }

  /** A match is the pattern up to case, followed by at most one '/' that the
      pattern does not already end in. */
  lemma MatchesShape(pattern: string, path: string)
    requires Matches(pattern, path)
    ensures |pattern| <= |path| <= |pattern| + 1
    ensures forall k | 0 <= k < |pattern| :: Lower(path[k]) == Lower(pattern[k])
    ensures |path| == |pattern| + 1 ==>
      path[|pattern|] == '/' && |pattern| > 0 && pattern[|pattern| - 1] != '/'
  {
  }

  /** No path matches two routes of the table, so which route a path selects
      does not depend on the router's ranking of routes. */
  lemma RoutesDisjoint(path: string, i: int, j: int)
    requires 0 <= i < |Routes| && 0 <= j < |Routes|
    requires Matches(Routes[i].path, path) && Matches(Routes[j].path, path)
    ensures i == j
  {
    MatchesShape(Routes[i].path, path);
    MatchesShape(Routes[j].path, path);
    if i != 3 && j != 3 {
      assert Lower(Routes[i].path[1]) == Lower(path[1]) == Lower(Routes[j].path[1]);
    }
  }

  /** A path matching a route of the table gets that route's meta. */
  lemma MetaOfRoute(i: int, path: string)
    requires 0 <= i < |Routes|
    requires Matches(Routes[i].path, path)
    ensures MetaOf(path) == Routes[i].meta
  {
    var j :| 0 <= j < |Routes| && Matches(Routes[j].path, path) && Routes[j].meta == MetaOf(path);
    RoutesDisjoint(path, i, j);
  }

  // ---- Properties -----------------------------------------------------------

  /** A logged-in user is never sent to the login page, and a logged-out user
      is never sent to the home page. */
  lemma NeverWrongRedirect(to: Target, loggedIn: bool)
    ensures loggedIn ==> Guard(to, loggedIn) != Redirect("login", Some(to.fullPath))
    ensures loggedIn ==> !(Guard(to, loggedIn).Redirect? && Guard(to, loggedIn).name == "login")
    ensures !loggedIn ==> !(Guard(to, loggedIn).Redirect? && Guard(to, loggedIn).name == "home")
  {
  }

  /** The table: sign-in and sign-up are for guests, the callback is public,
      home and record need a login. */
  lemma RouteTable()
    ensures MetaOf("/login") == Meta(false, false, true)
    ensures MetaOf("/signup") == Meta(false, false, true)
    ensures MetaOf("/auth/callback") == Meta(true, false, false)
    ensures MetaOf("/") == Meta(false, true, false)
    ensures MetaOf("/record") == Meta(false, true, false)
  {
    MetaOfRoute(0, "/login");
    MetaOfRoute(1, "/signup");
    MetaOfRoute(2, "/auth/callback");
    MetaOfRoute(3, "/");
    MetaOfRoute(4, "/record");
  }

  /** Guarding a path that matches a route of the table, whatever its case
      and trailing slash: logged out, every route needing a login redirects to
      login; logged in, every guest route redirects home; the callback always
      proceeds. */
  lemma TableGuard(i: int, path: string, loggedIn: bool, fullPath: string)
    requires 0 <= i < |Routes|
    requires Matches(Routes[i].path, path)
    ensures var d := Guard(Target(MetaOf(path), fullPath), loggedIn);
      && (Routes[i].name in {"home", "record"} ==> (d.Redirect? <==> !loggedIn))
      && (Routes[i].name in {"login", "signup"} ==> (d.Redirect? <==> loggedIn))
      && (Routes[i].name == "auth-callback" ==> d == Proceed)
  {
    MetaOfRoute(i, path);
    GuardOfRoute(i, loggedIn, fullPath);
  }

  /** The guard's decision for each route's own meta. */
  lemma GuardOfRoute(i: int, loggedIn: bool, fullPath: string)
    requires 0 <= i < |Routes|
    ensures var d := Guard(Target(Routes[i].meta, fullPath), loggedIn);
      && (Routes[i].name in {"home", "record"} ==> (d.Redirect? <==> !loggedIn))
      && (Routes[i].name in {"login", "signup"} ==> (d.Redirect? <==> loggedIn))
      && (Routes[i].name == "auth-callback" ==> d == Proceed)
  {
  }

  /** "/Record/" is the record page: a logged-out visit is sent to login. */
  lemma RecordVariant(fullPath: string)
    ensures Guard(Target(MetaOf("/Record/"), fullPath), false) == Redirect("login", Some(fullPath))
  {
    MetaOfRoute(4, "/Record/");
  }

  /** Right after tokens with a lifetime are saved, and until they expire, the
      sign-in page sends the user home. */
  lemma FreshLoginLeavesLoginPage(s: SessionStore.Session, t: TokenEndpoint.Tokens, now: int,
                                  later: int, decodeUser: string -> Option<Json>)
    requires JsTruthyString(t.accessToken)
    requires TokenEndpoint.TruthyNumber(t.expiresIn)
    requires later <= TokenEndpoint.ExpiryAt(now, t.expiresIn.value)
    ensures var s1 := SessionStore.SaveTokens(s, t, now, decodeUser);
      BeforeEach(Target(MetaOf("/login"), "/login"), s1, later).0 == Redirect("home", None)
  {
    RouteTable();
    if TokenEndpoint.ExpiryAt(now, t.expiresIn.value) != 0 {
      SessionStore.SavedSessionLifetime(s, t, now, later, decodeUser);
    }
  }
}
