/** Endpoint registration and route matching, the same on both platforms. */
module HttpRoutes {
  import opened Bytes

  const MAX_ROUTES := 8

  datatype HttpMethod = GET | POST

  /** Path is the registered C string; callback and context are opaque handles. */
  datatype Route = Route(verb: HttpMethod, path: string, callback: nat, context: nat)

  function MethodOf(token: string): Option<HttpMethod> {
    if token == "GET" then Some(GET) else if token == "POST" then Some(POST) else None
  }

  predicate Hits(route: Route, path: string, verb: Option<HttpMethod>) {
    route.path == path && verb == Some(route.verb)
  }

  /** The endpoint is registered for the path and for the method that the token names. */
  predicate IsFor(route: Route, path: string, token: string) {
    route.path == path && ((token == "GET" && route.verb == GET) || (token == "POST" && route.verb == POST))
  }

  function FirstHit(table: seq<Route>, path: string, verb: Option<HttpMethod>, i: nat := 0): (r: nat)
    requires i <= |table|
    ensures i <= r <= |table|
    ensures forall j :: i <= j < r ==> !Hits(table[j], path, verb)
    ensures r < |table| ==> Hits(table[r], path, verb)
    decreases |table| - i
  {
    if i == |table| || Hits(table[i], path, verb) then i else FirstHit(table, path, verb, i + 1)
  }

  /** The first registered hit, else the default route if there is one. */
  function Select(table: seq<Route>, fallback: Option<Route>, path: string, verb: Option<HttpMethod>): Option<Route> {
    var k := FirstHit(table, path, verb);
    if k < |table| then Some(table[k]) else fallback
  }

  /** The endpoint with the lowest index that has the path and the method, else the default one. */
  lemma {:induction false} SelectMeaning(
      table: seq<Route>, fallback: Option<Route>, path: string, verb: Option<HttpMethod>)
    ensures forall k :: && 0 <= k < |table| && table[k].path == path && verb == Some(table[k].verb)
                        && (forall j :: 0 <= j < k ==> table[j].path != path || verb != Some(table[j].verb))
              ==> Select(table, fallback, path, verb) == Some(table[k])
    ensures (forall k :: 0 <= k < |table| ==> table[k].path != path || verb != Some(table[k].verb))
              ==> Select(table, fallback, path, verb) == fallback
  {
    var k := FirstHit(table, path, verb);
    assert k < |table| ==> Hits(table[k], path, verb);
  }

  predicate PathExists(table: seq<Route>, path: string) {
    exists k :: 0 <= k < |table| && table[k].path == path
  }

  lemma {:induction false} LaterRouteWaits(
      table: seq<Route>, route: Route, path: string, verb: Option<HttpMethod>, i: nat)
    requires i <= |table|
    ensures FirstHit(table + [route], path, verb, i) ==
            var k := FirstHit(table, path, verb, i);
            if k < |table| || Hits(route, path, verb) then k else k + 1
    decreases |table| - i
  {
    if i >= |table| {
    } else {
      LaterRouteWaits(table, route, path, verb, i + 1);
    }
  }

  /** Registering one more endpoint only answers requests that no earlier endpoint answers. */
  lemma {:induction false} RegistrationIsStable(
      table: seq<Route>, route: Route, fallback: Option<Route>, path: string, verb: Option<HttpMethod>)
    ensures Select(table + [route], fallback, path, verb) ==
            if FirstHit(table, path, verb) < |table| then Select(table, fallback, path, verb)
            else if Hits(route, path, verb) then Some(route) else fallback
  {
    LaterRouteWaits(table, route, path, verb, 0);
  }

  class Registry {
    const routes: array<Route>
    var routeCount: nat
    var defaultRoute: Route
    var useDefaultRoute: bool

    ghost predicate Valid()
      reads this
    {
      routes.Length == MAX_ROUTES && routeCount <= MAX_ROUTES
    }

    /** The registered endpoints, in order. */
    ghost function Table(): seq<Route>
      requires Valid()
      reads this, routes
    {
      routes[..routeCount]
    }

    ghost function Default(): Option<Route>
      reads this
    {
      if useDefaultRoute then Some(defaultRoute) else None
    }

    constructor ()
      ensures Valid() && fresh(routes)
      ensures Table() == [] && Default() == None
    {
      var none := Route(GET, "", 0, 0);
      routes := new Route[MAX_ROUTES](_ => none);
      routeCount, defaultRoute, useDefaultRoute := 0, none, false;
    }

    /** HttpServerRegisterEndpoint; a missing path or callback, or a full table, is refused. */
    method Register(verb: HttpMethod, path: Option<string>, callback: Option<nat>, context: nat) returns (ok: bool)
      requires Valid()
      modifies this`routeCount, routes
      ensures Valid() && Default() == old(Default())
      ensures ok <==> path.Some? && callback.Some? && |old(Table())| < 8
      ensures Table() == if ok then old(Table()) + [Route(verb, path.value, callback.value, context)] else old(Table())
    {
      if path.None? || callback.None? || routeCount >= MAX_ROUTES {
        return false;
      }
      routes[routeCount] := Route(verb, path.value, callback.value, context);
      routeCount := routeCount + 1;
      return true;
    }

    /** HttpServerSetDefaultEndpoint, which a full table of ordinary routes refuses too. */
    method SetDefault(verb: HttpMethod, path: Option<string>, callback: Option<nat>, context: nat) returns (ok: bool)
      requires Valid()
      modifies this`defaultRoute, this`useDefaultRoute
      ensures Valid() && Table() == old(Table())
      ensures ok <==> path.Some? && callback.Some? && |old(Table())| < 8
      ensures Default() == if ok then Some(Route(verb, path.value, callback.value, context)) else old(Default())
    {
      if path.None? || callback.None? || routeCount >= MAX_ROUTES {
        return false;
      }
      defaultRoute := Route(verb, path.value, callback.value, context);
      useDefaultRoute := true;
      return true;
    }

    /** HttpServerStop forgets the endpoints but keeps the default one. */
    method Stop()
      requires Valid()
      modifies this`routeCount
      ensures Valid() && Table() == [] && Default() == old(Default())
    {
      routeCount := 0;
    }

    method MatchRoute(path: string, verb: Option<HttpMethod>) returns (found: Option<Route>, pathExists: bool)
      requires Valid()
      ensures found == Select(Table(), Default(), path, verb)
      ensures found.None? ==> pathExists == PathExists(Table(), path)
    {
      ghost var table := Table();
      pathExists := false;
      for index := 0 to routeCount
        invariant FirstHit(table, path, verb) == FirstHit(table, path, verb, index)
        invariant pathExists == exists k :: 0 <= k < index && table[k].path == path
      {
        assert table[index] == routes[index];
        if routes[index].path != path {
          continue;
        }
        pathExists := true;
        if verb == Some(routes[index].verb) {
          return Some(routes[index]), pathExists;
        }
      }
      found := if useDefaultRoute then Some(defaultRoute) else None;
    }
  }
}
