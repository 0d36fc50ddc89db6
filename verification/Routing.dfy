/** Route-per-URL discovery: each requested URL goes to the first usable exchange
    its publisher's manifest names, each exchange is queried once with its own
    URLs, and the answers are laid back out one group per requested URL. */
module Routing {
  import opened Text
  import opened Registry
  import opened Selection

  /** Fixed for one call: URL to publisher domain, the probed manifests (publisher
      domain to the exchange domains it names), the registry, the well-known
      resolver, and which offers pass verification. */
  datatype Env = Env(
    domainOf: string -> Option<string>, manifests: map<string, seq<string>>,
    registry: string -> Lookup, resolve: string -> Option<string>, verified: Offer -> bool)

  /** The registry is read by domain, so a row carries the domain asked for. */
  ghost predicate ReadByDomain(env: Env) {
    forall d :: env.registry(d).Row? ==> env.registry(d).exchange.domain == d
  }

  /******* The rule, without the memo *******/

  /** Registered, live, and its own manifest resolves; the endpoint is the
      resolved one, never the registry's. */
  function Usable(env: Env, d: string): Option<Exchange> {
    match env.registry(d)
    case Row(e) =>
      if AdmissionOf(e).Live? && env.resolve(d).Some? then Some(e.(endpoint := env.resolve(d).value)) else None
    case _ => None
  }

  /** Declined for a reason that may clear: down, unreadable, or unresolvable. */
  predicate Transient(env: Env, d: string) {
    match env.registry(d)
    case NotFound => false
    case ReadFailed => true
    case Row(e) => AdmissionOf(e).Down? || (AdmissionOf(e).Live? && env.resolve(d).None?)
  }

  function FirstUsable(env: Env, named: seq<string>): Option<Exchange> {
    if named == [] then None
    else if Usable(env, named[0]).Some? then Usable(env, named[0])
    else FirstUsable(env, named[1..])
  }

  /** The domains looked at: up to and including the first usable one. */
  function Examined(env: Env, named: seq<string>): set<string> {
    if named == [] then {}
    else {named[0]} + if Usable(env, named[0]).Some? then {} else Examined(env, named[1..])
  }

  /** The exchanges a URL's publisher names; none when the URL does not parse or
      its publisher was not probed. */
  function Named(env: Env, uri: string): seq<string> {
    var d := env.domainOf(uri);
    if d.Some? && d.value in env.manifests then env.manifests[d.value] else []
  }

  function RouteOf(env: Env, uri: string): Option<Exchange> { FirstUsable(env, Named(env, uri)) }

  /******* The rule, with the memo *******/

  /** A remembered miss is an empty row, so a remembered row whose domain is
      empty asked as a miss. known holds the domains already looked up. */
  function LookOne(env: Env, known: set<string>, d: string): Option<Exchange> {
    if d == "" && d in known then None else Usable(env, d)
  }

  function Look(env: Env, known: set<string>, named: seq<string>): (Option<Exchange>, set<string>)
    decreases |named|
  {
    if named == [] then (None, known)
    else
      var r := LookOne(env, known, named[0]);
      if r.Some? then (r, known + {named[0]}) else Look(env, known + {named[0]}, named[1..])
  }

  /** The routes of a URL list, and every domain looked up on the way. */
  function Routes(env: Env, uris: seq<string>): (r: (seq<Option<Exchange>>, set<string>))
    ensures |r.0| == |uris|
  {
    if uris == [] then ([], {})
    else
      var (routes, known) := Routes(env, uris[..|uris| - 1]);
      var (route, known') := Look(env, known, Named(env, uris[|uris| - 1]));
      (routes + [route], known')
  }

  const NO_EXCHANGE := Exchange("", "", "", false, 0)

  function Entry(env: Env, d: string): Exchange {
    if Usable(env, d).Some? then Usable(env, d).value else NO_EXCHANGE
  }

  /** The memo holds the rule's answer for every domain asked for, each asked
      once, and the flag is up exactly when some domain asked for was declined
      for a reason that may clear. */
  ghost predicate Memo(env: Env, seen: map<string, Exchange>, flag: bool, asked: seq<string>) {
    && (forall d | d in seen :: seen[d] == Entry(env, d))
    && (forall d :: d in seen <==> d in asked)
    && (forall i, j | 0 <= i < j < |asked| :: asked[i] != asked[j])
    && (flag <==> exists d :: d in asked && Transient(env, d))
  }

  lemma MemoHit(env: Env, seen: map<string, Exchange>, flag: bool, asked: seq<string>, d: string)
    requires ReadByDomain(env) && Memo(env, seen, flag, asked)
    ensures d in seen ==> LookOne(env, seen.Keys, d) == if seen[d].domain != "" then Some(seen[d]) else None
  {
  }

  lemma MemoGrows(env: Env, seen: map<string, Exchange>, flag: bool, asked: seq<string>, d: string)
    requires Memo(env, seen, flag, asked) && d !in seen
    ensures Memo(env, seen[d := Entry(env, d)], flag || Transient(env, d), asked + [d])
  {
    hide Usable, Transient, Entry;
    var asked' := asked + [d];
    assert asked'[|asked|] == d;
    assert forall q :: q in asked' <==> q in asked || q == d;
  }

  class RouteScan {
    var seen: map<string, Exchange>
    var sawTransientDecline: bool
    var asked: seq<string>

    ghost predicate Valid(env: Env)
      reads this
    {
      Memo(env, seen, sawTransientDecline, asked)
    }

    constructor ()
      ensures seen == map[] && asked == [] && !sawTransientDecline
      ensures forall env :: Valid(env)
    {
      seen, sawTransientDecline, asked := map[], false, [];
    }

    method RegisteredHealthy(env: Env, domain: string) returns (r: Option<Exchange>)
      requires ReadByDomain(env) && Valid(env)
      modifies this
      ensures Valid(env) && seen.Keys == old(seen.Keys) + {domain}
      ensures r == LookOne(env, old(seen.Keys), domain)
    {
      hide Memo;
      MemoHit(env, seen, sawTransientDecline, asked, domain);
      if domain in seen {
        var ex := seen[domain];
        return if ex.domain != "" then Some(ex) else None;
      }
      MemoGrows(env, seen, sawTransientDecline, asked, domain);
      asked := asked + [domain];
      var l := env.registry(domain);
      if !l.Row? {
        if l.ReadFailed? {
          sawTransientDecline := true;
        }
        seen := seen[domain := NO_EXCHANGE];
        return None;
      }
      var m := l.exchange;
      var adm := AdmissionOf(m);
      if !adm.Live? {
        if adm.Down? {
          sawTransientDecline := true;
        }
        seen := seen[domain := NO_EXCHANGE];
        return None;
      }
      var endpoint := env.resolve(domain);
      if endpoint.None? {
        sawTransientDecline := true;
        seen := seen[domain := NO_EXCHANGE];
        return None;
      }
      m := m.(endpoint := endpoint.value);
      seen := seen[domain := m];
      return Some(m);
    }

    method ExchangeForURL(env: Env, uri: string) returns (r: Option<Exchange>)
      requires ReadByDomain(env) && Valid(env)
      modifies this
      ensures Valid(env)
      ensures (r, seen.Keys) == Look(env, old(seen.Keys), Named(env, uri))
    {
      hide Usable, Transient, LookOne, Valid;
      var d := env.domainOf(uri);
      if d.None? || d.value !in env.manifests {
        return None;
      }
      var named := env.manifests[d.value];
      for i := 0 to |named|
        invariant Valid(env)
        invariant Look(env, old(seen.Keys), named) == Look(env, seen.Keys, named[i..])
      {
        assert named[i..][0] == named[i] && named[i..][1..] == named[i + 1..];
        var ex := RegisteredHealthy(env, named[i]);
        if ex.Some? {
          return ex;
        }
      }
      return None;
    }
  }

  /******* Memo against rule *******/

  lemma {:induction false} LookAgrees(env: Env, known: set<string>, named: seq<string>)
    requires Usable(env, "").None?
    ensures Look(env, known, named) == (FirstUsable(env, named), known + Examined(env, named))
    decreases |named|
  {
    hide Usable;
    if named != [] {
      LookAgrees(env, known + {named[0]}, named[1..]);
      assert (known + {named[0]}) + Examined(env, named[1..]) == known + ({named[0]} + Examined(env, named[1..]));
      assert known + ({named[0]} + {}) == known + {named[0]};
    } else {
      assert known + {} == known;
    }
  }

  function ExaminedAll(env: Env, uris: seq<string>): set<string> {
    if uris == [] then {} else ExaminedAll(env, uris[..|uris| - 1]) + Examined(env, Named(env, uris[|uris| - 1]))
  }

  /** With no usable exchange under the empty domain, the memo changes nothing:
      every URL routes by the rule, and the domains looked up are those the rule
      examines. */
  lemma {:induction false} MemoAgrees(env: Env, uris: seq<string>)
    requires Usable(env, "").None?
    ensures forall i | 0 <= i < |uris| :: Routes(env, uris).0[i] == RouteOf(env, uris[i])
    ensures Routes(env, uris).1 == ExaminedAll(env, uris)
  {
    hide Usable, Look, Examined, FirstUsable, Named;
    if uris == [] {
    } else {
      var n := |uris| - 1;
      MemoAgrees(env, uris[..n]);
      LookAgrees(env, Routes(env, uris[..n]).1, Named(env, uris[n]));
      assert forall i | 0 <= i < n :: uris[..n][i] == uris[i];
    }
  }

  ghost predicate AlwaysAgrees(env: Env) {
    forall uris: seq<string>, i | 0 <= i < |uris| :: Routes(env, uris).0[i] == RouteOf(env, uris[i])
  }

  /** The condition is exact: if the empty domain is usable, a manifest that
      names only it routes a URL the first time and not the second. */
  lemma MemoAgreesIff(env: Env)
    ensures Usable(env, "").None? <==>
            forall domainOf, manifests :: AlwaysAgrees(env.(domainOf := domainOf, manifests := manifests))
  {
    if Usable(env, "").None? {
      forall domainOf, manifests
        ensures AlwaysAgrees(env.(domainOf := domainOf, manifests := manifests))
      {
        var e := env.(domainOf := domainOf, manifests := manifests);
        assert Usable(e, "") == Usable(env, "");
        forall uris: seq<string>, i | 0 <= i < |uris|
          ensures Routes(e, uris).0[i] == RouteOf(e, uris[i])
        {
          MemoAgrees(e, uris);
        }
      }
    } else {
      var e := env.(domainOf := (u: string) => Some(u), manifests := map["p" := [""]]);
      BlankRoutesOnce(e);
    }
  }

  lemma BlankRoutesOnce(e: Env)
    requires Usable(e, "").Some? && Named(e, "p") == [""]
    ensures !AlwaysAgrees(e)
  {
    hide Usable, Named;
    var uris := ["p", "p"];
    assert uris[..1] == ["p"] && uris[..1][..0] == [];
    assert [""][1..] == [];
    assert Routes(e, []) == ([], {});
    assert {} + {""} == {""};
    assert Look(e, {}, [""]) == (Usable(e, ""), {""});
    assert [] + [Usable(e, "")] == [Usable(e, "")] && uris[..1][0] == "p";
    assert Routes(e, uris[..1]) == ([Usable(e, "")], {""});
    assert Look(e, {""}, [""]).0 == None;
    assert Routes(e, uris).0[1] == None;
    assert RouteOf(e, uris[1]).Some?;
  }

  /******* The plan *******/

  datatype Plan = Plan(
    target: map<string, string>, urls: map<string, seq<string>>,
    exchanges: map<string, Exchange>, order: seq<string>)

  const NO_PLAN := Plan(map[], map[], map[], [])

  function PlanStep(p: Plan, uri: string, ex: Exchange): Plan {
    var d := ex.domain;
    Plan(p.target[uri := d], p.urls[d := (if d in p.urls then p.urls[d] else []) + [uri]],
         if d in p.exchanges then p.exchanges else p.exchanges[d := ex],
         if d in p.exchanges then p.order else p.order + [d])
  }

  function PlanFrom(uris: seq<string>, routes: seq<Option<Exchange>>): Plan
    requires |uris| == |routes|
  {
    if uris == [] then NO_PLAN
    else
      var n := |uris| - 1;
      var p := PlanFrom(uris[..n], routes[..n]);
      if routes[n].Some? then PlanStep(p, uris[n], routes[n].value) else p
  }

  class RoutePlan {
    var urlOrder: seq<string>
    var target: map<string, string>
    var exchangeURLs: map<string, seq<string>>
    var exchanges: map<string, Exchange>
    var exchangeOrder: seq<string>

    function Contents(): Plan
      reads this
    {
      Plan(target, exchangeURLs, exchanges, exchangeOrder)
    }

    constructor ()
      ensures urlOrder == [] && Contents() == NO_PLAN
    {
      urlOrder, target, exchangeURLs, exchanges, exchangeOrder := [], map[], map[], map[], [];
    }

    method RouteURLTo(uri: string, ex: Exchange)
      modifies this
      ensures Contents() == PlanStep(old(Contents()), uri, ex) && urlOrder == old(urlOrder)
    {
      if ex.domain !in exchanges {
        exchanges := exchanges[ex.domain := ex];
        exchangeOrder := exchangeOrder + [ex.domain];
      }
      target := target[uri := ex.domain];
      exchangeURLs := exchangeURLs[ex.domain := (if ex.domain in exchangeURLs then exchangeURLs[ex.domain] else []) + [uri]];
    }
  }

  method BuildRoutePlan(env: Env, uris: seq<string>) returns (plan: RoutePlan, scan: RouteScan, anyRouted: bool)
    requires ReadByDomain(env)
    ensures fresh(plan) && fresh(scan)
    ensures plan.urlOrder == uris && plan.Contents() == PlanFrom(uris, Routes(env, uris).0)
    ensures scan.Valid(env) && scan.seen.Keys == Routes(env, uris).1
    ensures anyRouted <==> plan.exchangeOrder != []
  {
    hide Look, Named, Memo, PlanStep;
    plan := new RoutePlan();
    scan := new RouteScan();
    for i := 0 to |uris|
      invariant fresh(plan) && fresh(scan)
      invariant scan.Valid(env) && scan.seen.Keys == Routes(env, uris[..i]).1
      invariant plan.urlOrder == uris[..i] && plan.Contents() == PlanFrom(uris[..i], Routes(env, uris[..i]).0)
    {
      RoutesNext(env, uris, i);
      plan.urlOrder := plan.urlOrder + [uris[i]];
      var ex := scan.ExchangeForURL(env, uris[i]);
      if ex.Some? {
        plan.RouteURLTo(uris[i], ex.value);
      }
    }
    assert uris[..|uris|] == uris;
    anyRouted := |plan.exchangeOrder| > 0;
  }

  lemma RoutesNext(env: Env, uris: seq<string>, i: nat)
    requires i < |uris|
    ensures var (routes, known) := Routes(env, uris[..i]);
            var (route, known') := Look(env, known, Named(env, uris[i]));
            && Routes(env, uris[..i + 1]) == (routes + [route], known')
            && PlanFrom(uris[..i + 1], routes + [route]) ==
               if route.Some? then PlanStep(PlanFrom(uris[..i], routes), uris[i], route.value) else PlanFrom(uris[..i], routes)
  {
    hide Look, Named, PlanStep;
    var (routes, known) := Routes(env, uris[..i]);
    var (route, known') := Look(env, known, Named(env, uris[i]));
    assert uris[..i + 1][..i] == uris[..i];
    assert (routes + [route])[..i] == routes;
  }

  /** The URLs whose route is d, in request order. */
  function RoutedTo(uris: seq<string>, routes: seq<Option<Exchange>>, d: string): seq<string>
    requires |uris| == |routes|
  {
    if uris == [] then []
    else
      var n := |uris| - 1;
      var rest := RoutedTo(uris[..n], routes[..n], d);
      if routes[n].Some? && routes[n].value.domain == d then rest + [uris[n]] else rest
  }

  predicate RoutedAt(uris: seq<string>, routes: seq<Option<Exchange>>, i: nat, uri: string, d: string)
    requires |uris| == |routes|
  {
    i < |uris| && uris[i] == uri && routes[i].Some? && routes[i].value.domain == d
  }

  ghost predicate EachOnce(p: Plan) {
    && (forall i, j | 0 <= i < j < |p.order| :: p.order[i] != p.order[j])
    && (forall d :: d in p.order <==> d in p.exchanges)
    && (forall d :: d in p.order <==> d in p.urls)
  }

  ghost predicate SubListsExact(uris: seq<string>, routes: seq<Option<Exchange>>, p: Plan)
    requires |uris| == |routes|
  {
    forall d :: (if d in p.urls then p.urls[d] else []) == RoutedTo(uris, routes, d)
  }

  ghost predicate RowsRouted(routes: seq<Option<Exchange>>, p: Plan) {
    && (forall d | d in p.exchanges :: Some(p.exchanges[d]) in routes && p.exchanges[d].domain == d)
    && (forall r | r in routes :: r.Some? ==> r.value.domain in p.exchanges)
  }

  ghost predicate TargetsRouted(uris: seq<string>, routes: seq<Option<Exchange>>, p: Plan)
    requires |uris| == |routes|
  {
    && (forall u | u in p.target :: exists i :: RoutedAt(uris, routes, i, u, p.target[u]))
    && (forall i | 0 <= i < |uris| :: routes[i].Some? ==> uris[i] in p.target)
  }

  /** What a plan holds: each routed exchange once, with exactly the ordered
      sub-list of URLs routed to it. */
  ghost predicate Plans(uris: seq<string>, routes: seq<Option<Exchange>>, p: Plan)
    requires |uris| == |routes|
  {
    EachOnce(p) && SubListsExact(uris, routes, p) && RowsRouted(routes, p) && TargetsRouted(uris, routes, p)
  }

  lemma EachOnceNext(p: Plan, uri: string, ex: Exchange)
    requires EachOnce(p)
    ensures EachOnce(PlanStep(p, uri, ex))
  {
    var p' := PlanStep(p, uri, ex);
    assert forall d :: d in p.order + [ex.domain] <==> d in p.order || d == ex.domain;
    assert forall d :: d in p'.exchanges <==> d in p.exchanges || d == ex.domain;
    assert forall d :: d in p'.urls <==> d in p.urls || d == ex.domain;
  }

  lemma RowsNext(routes: seq<Option<Exchange>>, n: nat, p: Plan, uri: string)
    requires n == |routes| - 1 && RowsRouted(routes[..n], p)
    ensures RowsRouted(routes, if routes[n].Some? then PlanStep(p, uri, routes[n].value) else p)
  {
    assert routes == routes[..n] + [routes[n]];
  }

  lemma TargetsNext(uris: seq<string>, routes: seq<Option<Exchange>>, n: nat, p: Plan)
    requires |uris| == |routes| && n == |uris| - 1 && TargetsRouted(uris[..n], routes[..n], p)
    ensures TargetsRouted(uris, routes, if routes[n].Some? then PlanStep(p, uris[n], routes[n].value) else p)
  {
    var u0, r0 := uris[..n], routes[..n];
    var p' := if routes[n].Some? then PlanStep(p, uris[n], routes[n].value) else p;
    assert forall i | 0 <= i < n :: u0[i] == uris[i] && r0[i] == routes[i];
    forall u | u in p'.target
      ensures exists i :: RoutedAt(uris, routes, i, u, p'.target[u])
    {
      if routes[n].Some? && u == uris[n] {
        assert RoutedAt(uris, routes, n, u, p'.target[u]);
      } else {
        var i :| RoutedAt(u0, r0, i, u, p.target[u]);
        assert RoutedAt(uris, routes, i, u, p'.target[u]);
      }
    }
  }

  lemma PlansNext(uris: seq<string>, routes: seq<Option<Exchange>>, n: nat, p: Plan)
    requires |uris| == |routes| && n == |uris| - 1 && Plans(uris[..n], routes[..n], p)
    ensures Plans(uris, routes, if routes[n].Some? then PlanStep(p, uris[n], routes[n].value) else p)
  {
    RowsNext(routes, n, p, uris[n]);
    TargetsNext(uris, routes, n, p);
    hide EachOnce, RowsRouted, TargetsRouted;
    if routes[n].Some? {
      EachOnceNext(p, uris[n], routes[n].value);
    }
  }

  /** The plan built from any routes plans them. */
  lemma {:induction false} PlanIsRight(uris: seq<string>, routes: seq<Option<Exchange>>)
    requires |uris| == |routes|
    ensures Plans(uris, routes, PlanFrom(uris, routes))
  {
    hide Plans, PlanStep;
    if uris == [] {
      PlansNothing(uris, routes);
    } else {
      var n := |uris| - 1;
      PlanIsRight(uris[..n], routes[..n]);
      PlansNext(uris, routes, n, PlanFrom(uris[..n], routes[..n]));
    }
  }

  lemma PlansNothing(uris: seq<string>, routes: seq<Option<Exchange>>)
    requires uris == [] && routes == []
    ensures Plans(uris, routes, NO_PLAN)
  {
  }

  /******* The rule in plain terms *******/

  /** An exchange is usable exactly when it is registered and live and its own
      manifest resolves; its row is used as registered, at the resolved endpoint. */
  lemma UsableIff(env: Env, d: string, ex: Exchange)
    ensures Usable(env, d) == Some(ex) <==>
            && env.registry(d).Row? && env.resolve(d) == Some(ex.endpoint)
            && var row := env.registry(d).exchange;
            && row.trust != "BLOCKED" && row.healthy
            && ex.domain == row.domain && ex.trust == row.trust && ex.priority == row.priority && ex.healthy == row.healthy
  {
    if env.registry(d).Row? {
      var row := env.registry(d).exchange;
      assert row.(endpoint := ex.endpoint) == Exchange(row.domain, ex.endpoint, row.trust, row.healthy, row.priority);
    }
  }

  /** A decline may clear when the registry could not be read, or the exchange is not
      blocked and is down or its manifest does not resolve. */
  lemma TransientIff(env: Env, d: string)
    ensures Transient(env, d) <==>
            || env.registry(d).ReadFailed?
            || (env.registry(d).Row? && env.registry(d).exchange.trust != "BLOCKED" &&
                (!env.registry(d).exchange.healthy || env.resolve(d).None?))
  {
  }

  /** The route is that of the first usable exchange named. */
  lemma {:induction false} RouteIsFirstUsable(env: Env, named: seq<string>)
    ensures FirstUsable(env, named).None? <==> forall i | 0 <= i < |named| :: Usable(env, named[i]).None?
    ensures FirstUsable(env, named).Some? ==>
              exists i | 0 <= i < |named| ::
                Usable(env, named[i]) == FirstUsable(env, named) && forall j | 0 <= j < i :: Usable(env, named[j]).None?
  {
    hide Usable;
    if named == [] {
    } else if Usable(env, named[0]).Some? {
    } else {
      var rest := named[1..];
      RouteIsFirstUsable(env, rest);
      assert forall j | 1 <= j < |named| :: named[j] == rest[j - 1];
      if FirstUsable(env, rest).Some? {
        var i :| 0 <= i < |rest| && Usable(env, rest[i]) == FirstUsable(env, rest) && forall j | 0 <= j < i :: Usable(env, rest[j]).None?;
        assert Usable(env, named[i + 1]) == FirstUsable(env, named);
      }
    }
  }

  function Here(routes: seq<Option<Exchange>>, d: string): nat -> bool {
    (i: nat) => i < |routes| && routes[i].Some? && routes[i].value.domain == d
  }

  lemma RoutedToNext(uris: seq<string>, routes: seq<Option<Exchange>>, d: string, n: nat)
    requires n < |uris| == |routes|
    ensures RoutedTo(uris[..n + 1], routes[..n + 1], d) ==
            RoutedTo(uris[..n], routes[..n], d) + if Here(routes, d)(n) then [uris[n]] else []
  {
    assert uris[..n + 1][..n] == uris[..n] && routes[..n + 1][..n] == routes[..n];
  }

  lemma {:induction false} RoutedPlaces(uris: seq<string>, routes: seq<Option<Exchange>>, d: string, n: nat) returns (at: seq<nat>)
    requires n <= |uris| == |routes|
    ensures Places(at, n, Here(routes, d))
    ensures var r := RoutedTo(uris[..n], routes[..n], d); |r| == |at| && forall i | 0 <= i < |at| :: r[i] == uris[at[i]]
  {
    if n == 0 {
      at := [];
    } else {
      var m := n - 1;
      at := RoutedPlaces(uris, routes, d, m);
      RoutedToNext(uris, routes, d, m);
      PlacesNext(at, m, Here(routes, d));
      hide RoutedTo, Here, Places;
      at := if Here(routes, d)(m) then at + [m] else at;
    }
  }

  /** A domain's sub-list is the routed URLs at increasing places, every one of them. */
  lemma RoutedToIsFilter(uris: seq<string>, routes: seq<Option<Exchange>>, d: string) returns (at: seq<nat>)
    requires |uris| == |routes|
    ensures |at| == |RoutedTo(uris, routes, d)|
    ensures forall i | 0 <= i < |at| :: at[i] < |uris| && RoutedTo(uris, routes, d)[i] == uris[at[i]]
    ensures forall i, j | 0 <= i < j < |at| :: at[i] < at[j]
    ensures forall i: nat :: i in at <==> i < |uris| && routes[i].Some? && routes[i].value.domain == d
  {
    hide RoutedTo;
    at := RoutedPlaces(uris, routes, d, |uris|);
    assert uris[..|uris|] == uris && routes[..|uris|] == routes;
  }

  /** Exchanges are queried in the order they are first routed to. */
  lemma {:induction false} PlanFirstSeen(uris: seq<string>, routes: seq<Option<Exchange>>, m: nat)
    requires |uris| == |routes| && m <= |uris|
    ensures PlanFrom(uris[..m], routes[..m]).order <= PlanFrom(uris, routes).order
    decreases |uris| - m
  {
    if m == |uris| {
      assert uris[..m] == uris && routes[..m] == routes;
    } else {
      PlanFirstSeen(uris, routes, m + 1);
      assert uris[..m + 1][..m] == uris[..m] && routes[..m + 1][..m] == routes[..m];
    }
  }
}
