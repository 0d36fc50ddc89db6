/** Route-per-URL discovery: one query per routed exchange with its own URLs, the
    verified offers gathered per URL, and one group per requested URL. */
module Discovery {
  import opened Text
  import opened Registry
  import opened Selection
  import opened Routing

  const NOT_IN_CATALOG := "NOT_IN_CATALOG"

  /** One group of an exchange's reply; absence is None when unspecified. */
  datatype WireGroup = WireGroup(uri: string, offers: seq<Offer>, absence: Option<string>)

  datatype Reply = SignFailed | CallFailed | Replied(groups: seq<WireGroup>)

  /** What the far ends do, and which domains a request can be addressed to. */
  datatype Net = Net(bare: string -> bool, query: (Exchange, seq<string>) -> Reply)

  /** The offers collected for one URL so far. */
  datatype Acc = Acc(cands: seq<Candidate>, absence: Option<string>)

  datatype OfferGroup = OfferGroup(uri: string, offers: seq<Candidate>, absence: Option<string>)

  datatype Leg = Leg(exchange: Exchange, uris: seq<string>)

  datatype Outcome = SignError | Found(groups: seq<OfferGroup>, allUpstreamFailed: bool)

  const EMPTY := Acc([], None)

  function At(m: map<string, Acc>, u: string): Acc { if u in m then m[u] else EMPTY }

  function RefOf(e: Exchange): ExchangeRef { ExchangeRef(e.domain, e.endpoint, e.trust, e.priority) }

  /** A row whose domain no request can name is refused before anything is sent. */
  function QueryExchange(net: Net, ex: Exchange, uris: seq<string>): Reply {
    if net.bare(ex.domain) then net.query(ex, uris) else CallFailed
  }

  /******* Collecting one reply *******/

  function VerifiedFrom(env: Env, ex: Exchange, offers: seq<Offer>): seq<Candidate> {
    if offers == [] then []
    else
      var n := |offers| - 1;
      VerifiedFrom(env, ex, offers[..n]) + if env.verified(offers[n]) then [Candidate(offers[n], RefOf(ex))] else []
  }

  /** The verified offers a reply carries for u, in reply order. */
  function OffersFor(env: Env, ex: Exchange, groups: seq<WireGroup>, u: string): seq<Candidate> {
    if groups == [] then []
    else
      var n := |groups| - 1;
      OffersFor(env, ex, groups[..n], u) + if groups[n].uri == u then VerifiedFrom(env, ex, groups[n].offers) else []
  }

  /** The last absence a reply states for u, else the one before it. */
  function AbsenceFor(groups: seq<WireGroup>, u: string, before: Option<string>): Option<string> {
    if groups == [] then before
    else
      var n := |groups| - 1;
      if groups[n].uri == u && groups[n].absence.Some? then groups[n].absence else AbsenceFor(groups[..n], u, before)
  }

  predicate Mentions(groups: seq<WireGroup>, u: string) { exists g :: g in groups && g.uri == u }

  /** What m holds for u once a reply is added to m0: the old candidates followed
      by the reply's verified offers for it. */
  ghost predicate CollectedAt(
    env: Env, ex: Exchange, groups: seq<WireGroup>, m0: map<string, Acc>, m: map<string, Acc>, u: string)
  {
    && (u in m <==> u in m0 || Mentions(groups, u))
    && At(m, u).cands == At(m0, u).cands + OffersFor(env, ex, groups, u)
    && At(m, u).absence == AbsenceFor(groups, u, At(m0, u).absence)
  }

  ghost predicate Collected(env: Env, ex: Exchange, groups: seq<WireGroup>, m0: map<string, Acc>, m: map<string, Acc>) {
    forall u :: CollectedAt(env, ex, groups, m0, m, u)
  }

  method SortVerified(env: Env, ex: Exchange, offers: seq<Offer>, cands: seq<Candidate>) returns (out: seq<Candidate>)
    ensures out == cands + VerifiedFrom(env, ex, offers)
  {
    out := cands;
    for i := 0 to |offers|
      invariant out == cands + VerifiedFrom(env, ex, offers[..i])
    {
      assert offers[..i + 1][..i] == offers[..i];
      if env.verified(offers[i]) {
        out := out + [Candidate(offers[i], RefOf(ex))];
      }
    }
    assert offers[..|offers|] == offers;
  }

  method CollectGroups(env: Env, byURL: map<string, Acc>, ex: Exchange, groups: seq<WireGroup>) returns (m: map<string, Acc>)
    ensures Collected(env, ex, groups, byURL, m)
  {
    m := byURL;
    for i := 0 to |groups|
      invariant Collected(env, ex, groups[..i], byURL, m)
    {
      var g := groups[i];
      var acc := if g.uri in m then m[g.uri] else EMPTY;
      var cands := SortVerified(env, ex, g.offers, acc.cands);
      acc := acc.(cands := cands);
      if g.absence.Some? {
        acc := acc.(absence := g.absence);
      }
      CollectedNext(env, ex, groups, i, byURL, m, acc);
      m := m[g.uri := acc];
    }
    assert groups[..|groups|] == groups;
  }

  lemma CollectedNext(env: Env, ex: Exchange, groups: seq<WireGroup>, i: nat, m0: map<string, Acc>, m: map<string, Acc>, acc: Acc)
    requires i < |groups| && Collected(env, ex, groups[..i], m0, m)
    requires acc.cands == At(m, groups[i].uri).cands + VerifiedFrom(env, ex, groups[i].offers)
    requires acc.absence == if groups[i].absence.Some? then groups[i].absence else At(m, groups[i].uri).absence
    ensures Collected(env, ex, groups[..i + 1], m0, m[groups[i].uri := acc])
  {
    var more, m' := groups[..i + 1], m[groups[i].uri := acc];
    assert more[..i] == groups[..i];
    forall u
      ensures CollectedAt(env, ex, more, m0, m', u)
    {
      assert CollectedAt(env, ex, groups[..i], m0, m, u);
      hide VerifiedFrom, Mentions;
      if u != groups[i].uri {
        assert At(m', u) == At(m, u);
        assert OffersFor(env, ex, more, u) == OffersFor(env, ex, groups[..i], u) + [];
      } else {
        assert At(m0, u).cands + OffersFor(env, ex, groups[..i], u) + VerifiedFrom(env, ex, groups[i].offers)
            == At(m0, u).cands + (OffersFor(env, ex, groups[..i], u) + VerifiedFrom(env, ex, groups[i].offers));
      }
    }
  }

  /******* All the queries *******/

  function LegOf(p: Plan, k: nat): Leg
    requires k < |p.order| && EachOnce(p)
  {
    Leg(p.exchanges[p.order[k]], p.urls[p.order[k]])
  }

  function ReplyOf(net: Net, p: Plan, k: nat): Reply
    requires k < |p.order| && EachOnce(p)
  {
    QueryExchange(net, LegOf(p, k).exchange, LegOf(p, k).uris)
  }

  /** What leg k contributes to u. */
  function FromLeg(env: Env, net: Net, p: Plan, k: nat, u: string): seq<Candidate>
    requires k < |p.order| && EachOnce(p)
  {
    var r := ReplyOf(net, p, k);
    if r.Replied? then OffersFor(env, LegOf(p, k).exchange, r.groups, u) else []
  }

  /** What the first n legs contribute to u, in leg order. */
  function Gathered(env: Env, net: Net, p: Plan, n: nat, u: string): seq<Candidate>
    requires n <= |p.order| && EachOnce(p)
  {
    if n == 0 then [] else Gathered(env, net, p, n - 1, u) + FromLeg(env, net, p, n - 1, u)
  }

  function Failures(net: Net, p: Plan, n: nat): (r: nat)
    requires n <= |p.order| && EachOnce(p)
    ensures r <= n
    ensures r == n <==> forall k | 0 <= k < n :: !ReplyOf(net, p, k).Replied?
  {
    if n == 0 then 0 else Failures(net, p, n - 1) + if ReplyOf(net, p, n - 1).Replied? then 0 else 1
  }

  /** Some leg's reply has a group for u. */
  predicate Answered(net: Net, p: Plan, n: nat, u: string)
    requires n <= |p.order| && EachOnce(p)
  {
    exists k | 0 <= k < n :: ReplyOf(net, p, k).Replied? && Mentions(ReplyOf(net, p, k).groups, u)
  }

  /** The last absence the legs state for u. */
  function Stated(net: Net, p: Plan, n: nat, u: string): Option<string>
    requires n <= |p.order| && EachOnce(p)
  {
    if n == 0 then None
    else
      var r := ReplyOf(net, p, n - 1);
      if r.Replied? then AbsenceFor(r.groups, u, Stated(net, p, n - 1, u)) else Stated(net, p, n - 1, u)
  }

  ghost predicate HoldsAt(env: Env, net: Net, p: Plan, n: nat, m: map<string, Acc>, u: string)
    requires n <= |p.order| && EachOnce(p)
  {
    && (u in m <==> Answered(net, p, n, u))
    && At(m, u) == Acc(Gathered(env, net, p, n, u), Stated(net, p, n, u))
  }

  ghost predicate Holds(env: Env, net: Net, p: Plan, n: nat, m: map<string, Acc>)
    requires n <= |p.order| && EachOnce(p)
  {
    forall u :: HoldsAt(env, net, p, n, m, u)
  }

  lemma HoldsNext(env: Env, net: Net, p: Plan, n: nat, m: map<string, Acc>, m': map<string, Acc>)
    requires n < |p.order| && EachOnce(p) && Holds(env, net, p, n, m)
    requires var r := ReplyOf(net, p, n);
             if r.Replied? then Collected(env, LegOf(p, n).exchange, r.groups, m, m') else m' == m
    ensures Holds(env, net, p, n + 1, m')
  {
    var next := n + 1;
    forall u
      ensures HoldsAt(env, net, p, next, m', u)
    {
      assert HoldsAt(env, net, p, n, m, u);
      AnsweredNext(net, p, n, u);
      hide EachOnce, OffersFor, Mentions, ReplyOf, AbsenceFor, Answered;
      if ReplyOf(net, p, n).Replied? {
        assert CollectedAt(env, LegOf(p, n).exchange, ReplyOf(net, p, n).groups, m, m', u);
      }
    }
  }

  lemma AnsweredNext(net: Net, p: Plan, n: nat, u: string)
    requires n < |p.order| && EachOnce(p)
    ensures Answered(net, p, n + 1, u) <==>
            Answered(net, p, n, u) || (ReplyOf(net, p, n).Replied? && Mentions(ReplyOf(net, p, n).groups, u))
  {
    hide EachOnce, ReplyOf, Mentions;
  }

  /******* Laying the answers out *******/

  /** The group for u: its candidates deduplicated and ranked; without candidates,
      the absence its exchange stated; without an answer, not in the catalog. */
  ghost predicate GroupFor(m: map<string, Acc>, u: string, g: OfferGroup) {
    && g.uri == u
    && (u !in m ==> g.offers == [] && g.absence == Some(NOT_IN_CATALOG))
    && (u in m && m[u].cands == [] ==> g.offers == [] && g.absence == m[u].absence)
    && (u in m && m[u].cands != [] ==> g.absence == None && Reduced(m[u].cands, g.offers))
  }

  ghost predicate Reduced(cands: seq<Candidate>, offers: seq<Candidate>) {
    exists l :: Lists(Best(cands), l) && offers == Rank(l)
  }

  method Finalize(u: string, acc: Acc) returns (g: OfferGroup)
    ensures GroupFor(map[u := acc], u, g)
  {
    hide Best, Rank, Lists;
    if acc.cands == [] {
      return OfferGroup(u, [], acc.absence);
    }
    var l := Dedup(acc.cands);
    var a := new Candidate[|l|](i requires 0 <= i < |l| => l[i]);
    assert a[..] == l;
    RankInPlace(a);
    return OfferGroup(u, a[..], None);
  }

  method Assemble(urlOrder: seq<string>, byURL: map<string, Acc>) returns (out: seq<OfferGroup>)
    ensures |out| == |urlOrder|
    ensures forall i | 0 <= i < |out| :: GroupFor(byURL, urlOrder[i], out[i])
  {
    hide Reduced;
    out := [];
    for i := 0 to |urlOrder|
      invariant |out| == i
      invariant forall j | 0 <= j < i :: GroupFor(byURL, urlOrder[j], out[j])
    {
      var u := urlOrder[i];
      if u in byURL {
        var g := Finalize(u, byURL[u]);
        out := out + [g];
      } else {
        out := out + [OfferGroup(u, [], Some(NOT_IN_CATALOG))];
      }
    }
  }

  ghost predicate Answers(env: Env, net: Net, p: Plan, uris: seq<string>, groups: seq<OfferGroup>)
    requires EachOnce(p)
  {
    exists m :: Holds(env, net, p, |p.order|, m) && |groups| == |uris|
                && forall i | 0 <= i < |uris| :: GroupFor(m, uris[i], groups[i])
  }

  lemma LegNext(net: Net, p: Plan, k: nat)
    requires k < |p.order| && EachOnce(p)
    ensures p.order[k] in p.exchanges && p.order[k] in p.urls && Failures(net, p, 0) == 0
    ensures Failures(net, p, k + 1) == Failures(net, p, k) + if ReplyOf(net, p, k).Replied? then 0 else 1
  {
  }

  /** The legs in plan order, each tried once; a signing failure stops the run. */
  method QueryAll(env: Env, net: Net, plan: RoutePlan)
    returns (signed: bool, byURL: map<string, Acc>, failures: nat, legs: seq<Leg>)
    requires EachOnce(plan.Contents())
    ensures var p := plan.Contents(); |legs| <= |p.order| && forall k | 0 <= k < |legs| :: legs[k] == LegOf(p, k)
    ensures forall k | 0 <= k < |legs| - 1 :: !ReplyOf(net, plan.Contents(), k).SignFailed?
    ensures !signed ==> legs != [] && ReplyOf(net, plan.Contents(), |legs| - 1).SignFailed?
    ensures signed ==> (var p := plan.Contents();
                        && |legs| == |p.order|
                        && (forall k | 0 <= k < |p.order| :: !ReplyOf(net, p, k).SignFailed?)
                        && failures == Failures(net, p, |p.order|)
                        && Holds(env, net, p, |p.order|, byURL))
  {
    hide Collected, Holds, Failures, EachOnce;
    ghost var p := plan.Contents();
    byURL, failures, legs, signed := map[], 0, [], true;
    assert Failures(net, p, 0) == 0;
    HoldsNothing(env, net, p);
    for k := 0 to |plan.exchangeOrder|
      invariant |legs| == k && forall j | 0 <= j < k :: legs[j] == LegOf(p, j) && !ReplyOf(net, p, j).SignFailed?
      invariant failures == Failures(net, p, k)
      invariant Holds(env, net, p, k, byURL)
    {
      LegNext(net, p, k);
      var domain := plan.exchangeOrder[k];
      var ex, sub := plan.exchanges[domain], plan.exchangeURLs[domain];
      legs := legs + [Leg(ex, sub)];
      var reply := QueryExchange(net, ex, sub);
      if reply.SignFailed? {
        signed := false;
        return;
      }
      if reply.CallFailed? {
        HoldsNext(env, net, p, k, byURL, byURL);
        failures := failures + 1;
      } else {
        var m := CollectGroups(env, byURL, ex, reply.groups);
        HoldsNext(env, net, p, k, byURL, m);
        byURL := m;
      }
    }
  }

  method DiscoverByRoute(env: Env, net: Net, uris: seq<string>)
    returns (r: Outcome, legs: seq<Leg>, namedExchangeDown: bool, ghost p: Plan)
    requires ReadByDomain(env)
    ensures p == PlanFrom(uris, Routes(env, uris).0) && Plans(uris, Routes(env, uris).0, p)
    ensures namedExchangeDown <==> exists d :: d in Routes(env, uris).1 && Transient(env, d)
    ensures |legs| <= |p.order| && forall k | 0 <= k < |legs| :: legs[k] == LegOf(p, k)
    ensures forall k | 0 <= k < |legs| - 1 :: !ReplyOf(net, p, k).SignFailed?
    ensures if r.SignError? then legs != [] && ReplyOf(net, p, |legs| - 1).SignFailed?
            else |legs| == |p.order| && forall k | 0 <= k < |legs| :: !ReplyOf(net, p, k).SignFailed?
    ensures r.Found? ==> Answers(env, net, p, uris, r.groups)
    ensures r.Found? ==>
              (r.allUpstreamFailed <==> p.order != [] && forall k | 0 <= k < |p.order| :: !ReplyOf(net, p, k).Replied?)
  {
    hide Routes, PlanFrom, Transient, Holds, GroupFor, ReplyOf, EachOnce, SubListsExact, RowsRouted, TargetsRouted;
    var plan, scan, anyRouted := BuildRoutePlan(env, uris);
    namedExchangeDown := scan.sawTransientDecline;
    p := plan.Contents();
    PlanIsRight(uris, Routes(env, uris).0);
    var signed, byURL, failures;
    signed, byURL, failures, legs := QueryAll(env, net, plan);
    if !signed {
      return SignError, legs, namedExchangeDown, p;
    }
    var groups := Assemble(plan.urlOrder, byURL);
    assert Holds(env, net, p, |p.order|, byURL);
    r := Found(groups, anyRouted && failures > 0 && failures == |plan.exchangeOrder|);
  }

  lemma HoldsNothing(env: Env, net: Net, p: Plan)
    requires EachOnce(p)
    ensures Holds(env, net, p, 0, map[])
  {
  }

  /******* Whose offers end up in a group *******/

  function IndexOf(s: seq<string>, d: string): (k: nat)
    ensures k <= |s| && (k < |s| ==> s[k] == d) && (k == |s| ==> d !in s)
  {
    if s == [] then 0 else if s[0] == d then 0 else 1 + IndexOf(s[1..], d)
  }

  /** The leg u was routed to; the number of legs when it was not routed. */
  function HomeLeg(p: Plan, u: string): (k: nat)
    ensures k <= |p.order|
  {
    if u in p.target then IndexOf(p.order, p.target[u]) else |p.order|
  }

  function HomeOffers(env: Env, net: Net, p: Plan, n: nat, u: string): seq<Candidate>
    requires n <= |p.order| && EachOnce(p)
  {
    if HomeLeg(p, u) < n then FromLeg(env, net, p, HomeLeg(p, u), u) else []
  }

  /** A leg other than u's own brings a verified offer for u. */
  predicate Stray(env: Env, net: Net, p: Plan, k: nat, u: string)
    requires k < |p.order| && EachOnce(p)
  {
    k != HomeLeg(p, u) && FromLeg(env, net, p, k, u) != []
  }

  lemma {:induction false} NoStray(env: Env, net: Net, p: Plan, n: nat, u: string)
    requires n <= |p.order| && EachOnce(p)
    requires forall k | 0 <= k < n :: !Stray(env, net, p, k, u)
    ensures Gathered(env, net, p, n, u) == HomeOffers(env, net, p, n, u)
  {
    hide EachOnce, FromLeg, HomeLeg;
    if n == 0 {
    } else {
      NoStray(env, net, p, n - 1, u);
      assert !Stray(env, net, p, n - 1, u);
      assert [] + FromLeg(env, net, p, n - 1, u) == FromLeg(env, net, p, n - 1, u);
    }
  }

  lemma {:induction false} StrayAdds(env: Env, net: Net, p: Plan, n: nat, k: nat, u: string)
    requires k < n <= |p.order| && EachOnce(p) && Stray(env, net, p, k, u)
    ensures |Gathered(env, net, p, n, u)| > |HomeOffers(env, net, p, n, u)|
  {
    hide EachOnce, FromLeg, HomeLeg;
    if k < n - 1 {
      StrayAdds(env, net, p, n - 1, k, u);
    } else {
      AtLeastHome(env, net, p, n - 1, u);
    }
  }

  lemma {:induction false} AtLeastHome(env: Env, net: Net, p: Plan, n: nat, u: string)
    requires n <= |p.order| && EachOnce(p)
    ensures |Gathered(env, net, p, n, u)| >= |HomeOffers(env, net, p, n, u)|
  {
    hide EachOnce, FromLeg, HomeLeg;
    if n == 0 {
    } else {
      AtLeastHome(env, net, p, n - 1, u);
    }
  }

  /** A URL's candidates are its own exchange's verified offers for it, in order
      and nothing else, exactly when no other exchange sent one for it. */
  lemma OffersFromHomeIff(env: Env, net: Net, p: Plan, u: string)
    requires EachOnce(p)
    ensures Gathered(env, net, p, |p.order|, u) == HomeOffers(env, net, p, |p.order|, u) <==>
            forall k | 0 <= k < |p.order| :: !Stray(env, net, p, k, u)
  {
    hide EachOnce, Stray, Gathered, HomeOffers;
    if k :| 0 <= k < |p.order| && Stray(env, net, p, k, u) {
      StrayAdds(env, net, p, |p.order|, k, u);
    } else {
      NoStray(env, net, p, |p.order|, u);
    }
  }

  /** Every exchange answers only for URLs it was sent. */
  ghost predicate EchoesOnly(net: Net, p: Plan)
    requires EachOnce(p)
  {
    forall k, u | 0 <= k < |p.order| && ReplyOf(net, p, k).Replied? && Mentions(ReplyOf(net, p, k).groups, u) ::
      u in LegOf(p, k).uris
  }

  lemma {:induction false} RoutedToIff(uris: seq<string>, routes: seq<Option<Exchange>>, d: string, u: string)
    requires |uris| == |routes|
    ensures u in RoutedTo(uris, routes, d) <==> exists i :: RoutedAt(uris, routes, i, u, d)
  {
    if uris == [] {
    } else {
      var n := |uris| - 1;
      var u0, r0 := uris[..n], routes[..n];
      RoutedToIff(u0, r0, d, u);
      if i: nat :| RoutedAt(u0, r0, i, u, d) {
        assert RoutedAt(uris, routes, i, u, d);
      }
      if i: nat :| RoutedAt(uris, routes, i, u, d) {
        assert i < n ==> RoutedAt(u0, r0, i, u, d);
      }
      assert RoutedAt(uris, routes, n, u, d) <==> routes[n].Some? && routes[n].value.domain == d && uris[n] == u;
    }
  }

  lemma {:induction false} OffersMentioned(env: Env, ex: Exchange, groups: seq<WireGroup>, u: string)
    ensures OffersFor(env, ex, groups, u) != [] ==> Mentions(groups, u)
  {
    if groups == [] {
    } else {
      var n := |groups| - 1;
      OffersMentioned(env, ex, groups[..n], u);
      assert groups[n] in groups;
      assert forall g :: g in groups[..n] ==> g in groups;
    }
  }

  /** Same URL, same route: the plan's routes follow the rule. */
  ghost predicate ByRule(env: Env, uris: seq<string>, routes: seq<Option<Exchange>>) {
    |routes| == |uris| && forall i | 0 <= i < |uris| :: routes[i] == RouteOf(env, uris[i])
  }

  lemma EchoIsRouted(env: Env, net: Net, uris: seq<string>, routes: seq<Option<Exchange>>, p: Plan, k: nat, u: string)
    requires |uris| == |routes| && EachOnce(p) && SubListsExact(uris, routes, p) && EchoesOnly(net, p) && k < |p.order|
    requires FromLeg(env, net, p, k, u) != []
    ensures exists i :: RoutedAt(uris, routes, i, u, p.order[k])
  {
    hide OffersFor, Mentions, QueryExchange, RoutedTo, RoutedAt;
    OffersMentioned(env, LegOf(p, k).exchange, ReplyOf(net, p, k).groups, u);
    RoutedToIff(uris, routes, p.order[k], u);
  }

  /** Exchanges that answer only for what they were sent bring no stray offer. */
  lemma EchoHasNoStray(env: Env, net: Net, uris: seq<string>, routes: seq<Option<Exchange>>, p: Plan, k: nat, u: string)
    requires ByRule(env, uris, routes) && Plans(uris, routes, p) && EchoesOnly(net, p) && k < |p.order|
    ensures !Stray(env, net, p, k, u)
  {
    hide RouteOf, EchoesOnly, RowsRouted, SubListsExact, FromLeg;
    if FromLeg(env, net, p, k, u) != [] {
      EchoIsRouted(env, net, uris, routes, p, k, u);
      var i: nat :| RoutedAt(uris, routes, i, u, p.order[k]);
      assert u in p.target;
      var j: nat :| RoutedAt(uris, routes, j, u, p.target[u]);
      assert routes[i] == routes[j];
    }
  }

  lemma {:induction false} LookIsUsable(env: Env, known: set<string>, named: seq<string>)
    requires ReadByDomain(env)
    ensures var r := Look(env, known, named).0; r.Some? ==> Usable(env, r.value.domain) == r
    decreases |named|
  {
    if named == [] {
    } else {
      LookIsUsable(env, known + {named[0]}, named[1..]);
    }
  }

  /** A route is the usable exchange of its domain, so a domain stands for one. */
  lemma {:induction false} RoutesAreUsable(env: Env, uris: seq<string>, i: nat)
    requires ReadByDomain(env) && i < |uris|
    ensures var r := Routes(env, uris).0[i]; r.Some? ==> Usable(env, r.value.domain) == r
  {
    hide Usable, Look, Named;
    var n := |uris| - 1;
    if i == n {
      LookIsUsable(env, Routes(env, uris[..n]).1, Named(env, uris[n]));
    } else {
      RoutesAreUsable(env, uris[..n], i);
    }
  }

  ghost predicate VerifiedBy(env: Env, ex: Exchange, c: Candidate) { env.verified(c.offer) && c.exchange == RefOf(ex) }

  lemma {:induction false} VerifiedFromFacts(env: Env, ex: Exchange, offers: seq<Offer>)
    ensures forall c | c in VerifiedFrom(env, ex, offers) :: VerifiedBy(env, ex, c)
  {
    if offers == [] {
    } else {
      VerifiedFromFacts(env, ex, offers[..|offers| - 1]);
    }
  }

  lemma {:induction false} OffersForFacts(env: Env, ex: Exchange, groups: seq<WireGroup>, u: string)
    ensures forall c | c in OffersFor(env, ex, groups, u) :: VerifiedBy(env, ex, c)
  {
    hide VerifiedFrom;
    if groups == [] {
    } else {
      var n := |groups| - 1;
      OffersForFacts(env, ex, groups[..n], u);
      VerifiedFromFacts(env, ex, groups[n].offers);
    }
  }

  /** Whatever is gathered was verified, whoever sent it. */
  lemma {:induction false} GatheredVerified(env: Env, net: Net, p: Plan, n: nat, u: string)
    requires n <= |p.order| && EachOnce(p)
    ensures forall c | c in Gathered(env, net, p, n, u) ::
              exists k | 0 <= k < n :: VerifiedBy(env, LegOf(p, k).exchange, c) && c in FromLeg(env, net, p, k, u)
  {
    if n == 0 {
    } else {
      GatheredVerified(env, net, p, n - 1, u);
      hide EachOnce, OffersFor;
      var r := ReplyOf(net, p, n - 1);
      if r.Replied? {
        OffersForFacts(env, LegOf(p, n - 1).exchange, r.groups, u);
      }
    }
  }

  /** Deduplication and ranking invent nothing. */
  lemma ReducedFacts(cands: seq<Candidate>, offers: seq<Candidate>)
    requires Reduced(cands, offers)
    ensures forall c | c in offers :: c in cands
  {
    hide Best, Rank, KeyOf;
    var l :| Lists(Best(cands), l) && offers == Rank(l);
    RankFacts(l);
    forall c | c in offers
      ensures c in cands
    {
      assert c in multiset(offers);
      assert c in multiset(l);
      var i :| 0 <= i < |l| && l[i] == c;
      BestIsFirstCheapest(cands, KeyOf(c));
    }
  }

  /******* The winner *******/

  lemma ReducedRanked(cands: seq<Candidate>, offers: seq<Candidate>)
    requires Reduced(cands, offers)
    ensures Ranked(offers)
  {
    hide Best, Rank, Ranked;
    var l :| Lists(Best(cands), l) && offers == Rank(l);
    RankFacts(l);
  }

  function OffersOf(groups: seq<OfferGroup>): (r: seq<seq<Candidate>>)
    ensures |r| == |groups|
  {
    seq(|groups|, i requires 0 <= i < |groups| => groups[i].offers)
  }

  /** Every group of an answer is ranked. */
  lemma AnswersRanked(env: Env, net: Net, p: Plan, uris: seq<string>, groups: seq<OfferGroup>)
    requires EachOnce(p) && Answers(env, net, p, uris, groups)
    ensures forall i | 0 <= i < |groups| :: Ranked(OffersOf(groups)[i])
  {
    hide EachOnce, Reduced, Holds, Ranked;
    var m: map<string, Acc> :| Holds(env, net, p, |p.order|, m) && |groups| == |uris| &&
                               forall i | 0 <= i < |uris| :: GroupFor(m, uris[i], groups[i]);
    forall i | 0 <= i < |groups|
      ensures Ranked(groups[i].offers)
    {
      var u := uris[i];
      assert GroupFor(m, u, groups[i]);
      if u in m && m[u].cands != [] {
        ReducedRanked(m[u].cands, groups[i].offers);
      } else {
        NothingRanked();
      }
    }
  }

  /** Discovery, then its winner: the head of the stable ranking of all the offers
      discovered for all the URLs. */
  method DiscoverWinner(env: Env, net: Net, uris: seq<string>)
    returns (r: Outcome, w: Option<Candidate>, ghost p: Plan)
    requires ReadByDomain(env)
    ensures p == PlanFrom(uris, Routes(env, uris).0) && Plans(uris, Routes(env, uris).0, p)
    ensures r.SignError? <==> exists k | 0 <= k < |p.order| :: ReplyOf(net, p, k).SignFailed?
    ensures r.SignError? ==> w.None?
    ensures r.Found? ==>
              && Answers(env, net, p, uris, r.groups) && |r.groups| == |uris|
              && w == var all := Flat(OffersOf(r.groups)); if all == [] then None else Some(Rank(all)[0])
  {
    hide PlanFrom, Routes, Flat, Rank, Ranked, EachOnce, SubListsExact, RowsRouted, TargetsRouted, Transient, ReplyOf;
    var legs, down;
    r, legs, down, p := DiscoverByRoute(env, net, uris);
    if r.SignError? {
      return r, None, p;
    }
    AnswersRanked(env, net, p, uris, r.groups);
    w := Winner(OffersOf(r.groups));
  }

  /** Some occurrence of u was routed to ex. */
  ghost predicate RoutedHere(uris: seq<string>, routes: seq<Option<Exchange>>, u: string, ex: Exchange) {
    |uris| == |routes| && exists j | 0 <= j < |uris| :: uris[j] == u && routes[j] == Some(ex)
  }

  lemma OwnLegIsRouted(env: Env, net: Net, uris: seq<string>, p: Plan, k: nat, u: string)
    requires ReadByDomain(env) && Plans(uris, Routes(env, uris).0, p) && EchoesOnly(net, p)
    requires k < |p.order| && FromLeg(env, net, p, k, u) != []
    ensures RoutedHere(uris, Routes(env, uris).0, u, LegOf(p, k).exchange)
  {
    hide Usable, EchoesOnly, TargetsRouted, SubListsExact, FromLeg, Routes;
    var routes, d := Routes(env, uris).0, p.order[k];
    EchoIsRouted(env, net, uris, routes, p, k, u);
    var j: nat :| RoutedAt(uris, routes, j, u, d);
    RoutesAreUsable(env, uris, j);
    var i :| 0 <= i < |routes| && routes[i] == Some(p.exchanges[d]);
    RoutesAreUsable(env, uris, i);
  }

  /** Every offer in a URL's group was verified and came from an exchange the URL
      was routed to, provided exchanges answer only for what they were sent. */
  lemma GroupsFromRoutes(env: Env, net: Net, uris: seq<string>, p: Plan, groups: seq<OfferGroup>, i: nat, c: Candidate)
    requires ReadByDomain(env) && Plans(uris, Routes(env, uris).0, p) && EchoesOnly(net, p)
    requires Answers(env, net, p, uris, groups) && i < |uris|
    requires |groups| == |uris| && c in groups[i].offers
    ensures exists ex :: RoutedHere(uris, Routes(env, uris).0, uris[i], ex) && VerifiedBy(env, ex, c)
  {
    hide Usable, RefOf, Reduced, EchoesOnly, TargetsRouted, SubListsExact, RoutedTo, FromLeg, Routes, RoutedHere;
    var n, u := |p.order|, uris[i];
    var m: map<string, Acc> :| Holds(env, net, p, n, m) && |groups| == |uris| &&
                               forall i | 0 <= i < |uris| :: GroupFor(m, uris[i], groups[i]);
    assert HoldsAt(env, net, p, n, m, u) && GroupFor(m, u, groups[i]);
    ReducedFacts(m[u].cands, groups[i].offers);
    GatheredVerified(env, net, p, n, u);
    var k :| 0 <= k < n && VerifiedBy(env, LegOf(p, k).exchange, c) && c in FromLeg(env, net, p, k, u);
    OwnLegIsRouted(env, net, uris, p, k, u);
  }

  /** Each planned query goes to the endpoint its exchange's manifest resolved to, under
      the row as registered, with the URLs routed there; a domain no request can name
      is not sent to. */
  lemma LegsGoWhereResolved(env: Env, net: Net, uris: seq<string>, p: Plan, k: nat)
    requires ReadByDomain(env) && Plans(uris, Routes(env, uris).0, p) && k < |p.order|
    ensures var d, ex := p.order[k], LegOf(p, k).exchange;
            && env.registry(d).Row? && env.registry(d).exchange.trust != "BLOCKED" && env.registry(d).exchange.healthy
            && ex == env.registry(d).exchange.(endpoint := ex.endpoint) && ex.domain == d
            && env.resolve(d) == Some(ex.endpoint)
            && ReplyOf(net, p, k) ==
               if net.bare(d) then net.query(ex, RoutedTo(uris, Routes(env, uris).0, d)) else CallFailed
  {
    hide Usable, Routes, RoutedTo, TargetsRouted;
    var d, ex := p.order[k], LegOf(p, k).exchange;
    var routes := Routes(env, uris).0;
    assert d in p.exchanges && Some(ex) in routes;
    var i :| 0 <= i < |routes| && routes[i] == Some(ex);
    RoutesAreUsable(env, uris, i);
    UsableIff(env, d, ex);
  }

  /** Every offer found carries the domain, trust and priority of a registered live
      exchange and that exchange's resolved endpoint. */
  lemma OffersCarryTheirRow(env: Env, net: Net, uris: seq<string>, p: Plan, groups: seq<OfferGroup>, i: nat, c: Candidate)
    requires ReadByDomain(env) && Plans(uris, Routes(env, uris).0, p)
    requires Answers(env, net, p, uris, groups) && i < |groups| == |uris| && c in groups[i].offers
    ensures var d := c.exchange.domain;
            && env.verified(c.offer) && env.registry(d).Row?
            && env.registry(d).exchange.trust != "BLOCKED" && env.registry(d).exchange.healthy
            && c.exchange.trust == env.registry(d).exchange.trust && c.exchange.priority == env.registry(d).exchange.priority
            && env.resolve(d) == Some(c.exchange.endpoint)
  {
    hide Usable, Reduced, TargetsRouted, SubListsExact, RoutedTo, FromLeg, Routes, RowsRouted, ReplyOf;
    var n, u := |p.order|, uris[i];
    var m: map<string, Acc> :| Holds(env, net, p, n, m) && |groups| == |uris| &&
                               forall i | 0 <= i < |uris| :: GroupFor(m, uris[i], groups[i]);
    assert HoldsAt(env, net, p, n, m, u) && GroupFor(m, u, groups[i]);
    ReducedFacts(m[u].cands, groups[i].offers);
    GatheredVerified(env, net, p, n, u);
    var k :| 0 <= k < n && VerifiedBy(env, LegOf(p, k).exchange, c) && c in FromLeg(env, net, p, k, u);
    LegsGoWhereResolved(env, net, uris, p, k);
  }

  function VerifiedAt(env: Env, offers: seq<Offer>): nat -> bool { (i: nat) => i < |offers| && env.verified(offers[i]) }

  lemma VerifiedNext(env: Env, ex: Exchange, offers: seq<Offer>, n: nat)
    requires n < |offers|
    ensures VerifiedFrom(env, ex, offers[..n + 1]) ==
            VerifiedFrom(env, ex, offers[..n]) +
            if VerifiedAt(env, offers)(n) then [Candidate(offers[n], RefOf(ex))] else []
  {
    assert offers[..n + 1][..n] == offers[..n];
  }

  /** The first n offers of a reply become candidates in order: the verified ones. */
  lemma {:induction false} VerifiedPlaces(env: Env, ex: Exchange, offers: seq<Offer>, n: nat) returns (at: seq<nat>)
    requires n <= |offers|
    ensures Places(at, n, VerifiedAt(env, offers))
    ensures var r := VerifiedFrom(env, ex, offers[..n]); |r| == |at| && forall i | 0 <= i < |at| :: r[i].offer == offers[at[i]]
  {
    if n == 0 {
      at := [];
    } else {
      var m := n - 1;
      at := VerifiedPlaces(env, ex, offers, m);
      VerifiedNext(env, ex, offers, m);
      PlacesNext(at, m, VerifiedAt(env, offers));
      hide VerifiedFrom, VerifiedAt, Places;
      at := if VerifiedAt(env, offers)(m) then at + [m] else at;
    }
  }

  /** A reply's candidates are its verified offers, in order, each once. */
  lemma VerifiedIsFilter(env: Env, ex: Exchange, offers: seq<Offer>) returns (at: seq<nat>)
    ensures |at| == |VerifiedFrom(env, ex, offers)|
    ensures forall i | 0 <= i < |at| :: at[i] < |offers| && VerifiedFrom(env, ex, offers)[i].offer == offers[at[i]]
    ensures forall i, j | 0 <= i < j < |at| :: at[i] < at[j]
    ensures forall i: nat :: i in at <==> i < |offers| && env.verified(offers[i])
  {
    hide VerifiedFrom;
    at := VerifiedPlaces(env, ex, offers, |offers|);
    assert offers[..|offers|] == offers;
  }

  lemma {:induction false} GatheredHolds(env: Env, net: Net, p: Plan, n: nat, u: string, k: nat, c: Candidate)
    requires k < n <= |p.order| && EachOnce(p) && c in FromLeg(env, net, p, k, u)
    ensures c in Gathered(env, net, p, n, u)
  {
    hide FromLeg, EachOnce;
    if k == n - 1 {
    } else {
      GatheredHolds(env, net, p, n - 1, u, k, c);
    }
  }

  lemma {:induction false} OffersForHolds(env: Env, ex: Exchange, groups: seq<WireGroup>, j: nat, k: nat)
    requires j < |groups| && k < |groups[j].offers| && env.verified(groups[j].offers[k])
    ensures exists c :: c in OffersFor(env, ex, groups, groups[j].uri) && c.offer == groups[j].offers[k]
  {
    hide VerifiedFrom;
    var n := |groups| - 1;
    if j == n {
      var at := VerifiedIsFilter(env, ex, groups[j].offers);
      var i :| 0 <= i < |at| && at[i] == k;
      assert VerifiedFrom(env, ex, groups[j].offers)[i] in OffersFor(env, ex, groups, groups[j].uri);
    } else {
      OffersForHolds(env, ex, groups[..n], j, k);
    }
  }

  lemma ReducedKeeps(cands: seq<Candidate>, offers: seq<Candidate>, c: Candidate, x: real)
    requires Reduced(cands, offers) && c in cands && Asks(c.offer, x)
    ensures exists d, y: real :: d in offers && NamingOf(d.offer) == NamingOf(c.offer) && Asks(d.offer, y) && y <= x
  {
    hide Best, Rank, KeyOf, Lists, NamingOf, Asks;
    var l :| Lists(Best(cands), l) && offers == Rank(l);
    DedupKeepsCheapest(cands, l, c, x);
    RankFacts(l);
    var d, y: real :| d in l && d in cands && NamingOf(d.offer) == NamingOf(c.offer) && Asks(d.offer, y) && y <= x;
    assert d in multiset(offers);
  }

  /** No verified offer for a requested URL is lost: its group holds one of the same
      name that asks no more. */
  lemma VerifiedOffersRepresented(env: Env, net: Net, p: Plan, uris: seq<string>, groups: seq<OfferGroup>, i: nat,
                                  k: nat, j: nat, m: nat, x: real)
    requires EachOnce(p) && Answers(env, net, p, uris, groups) && i < |uris| == |groups|
    requires k < |p.order| && ReplyOf(net, p, k).Replied? && j < |ReplyOf(net, p, k).groups|
    requires var g := ReplyOf(net, p, k).groups[j];
             g.uri == uris[i] && m < |g.offers| && env.verified(g.offers[m]) && Asks(g.offers[m], x)
    ensures var o := ReplyOf(net, p, k).groups[j].offers[m];
            exists d, y: real :: d in groups[i].offers && NamingOf(d.offer) == NamingOf(o) && Asks(d.offer, y) && y <= x
  {
    hide EachOnce, Reduced, ReplyOf, OffersFor, NamingOf, Asks;
    var n, u := |p.order|, uris[i];
    var held: map<string, Acc> :| Holds(env, net, p, n, held) && |groups| == |uris| &&
                                  forall i | 0 <= i < |uris| :: GroupFor(held, uris[i], groups[i]);
    assert HoldsAt(env, net, p, n, held, u) && GroupFor(held, u, groups[i]);
    var r := ReplyOf(net, p, k);
    OffersForHolds(env, LegOf(p, k).exchange, r.groups, j, m);
    var c :| c in OffersFor(env, LegOf(p, k).exchange, r.groups, u) && c.offer == r.groups[j].offers[m];
    assert c in FromLeg(env, net, p, k, u);
    GatheredHolds(env, net, p, n, u, k, c);
    ReducedKeeps(At(held, u).cands, groups[i].offers, c, x);
  }

  /** The j-th group is the last to state an absence for u. */
  predicate LastStates(groups: seq<WireGroup>, u: string, j: nat) {
    && j < |groups| && groups[j].uri == u && groups[j].absence.Some?
    && forall i | j < i < |groups| && groups[i].uri == u :: groups[i].absence.None?
  }

  lemma {:induction false} AbsenceIsLast(groups: seq<WireGroup>, u: string, before: Option<string>, j: nat)
    ensures LastStates(groups, u, j) ==> AbsenceFor(groups, u, before) == groups[j].absence
    ensures (forall i | 0 <= i < |groups| && groups[i].uri == u :: groups[i].absence.None?) ==>
              AbsenceFor(groups, u, before) == before
  {
    if groups == [] {
    } else {
      var n := |groups| - 1;
      var init := groups[..n];
      AbsenceIsLast(init, u, before, j);
      assert forall i | 0 <= i < n :: init[i] == groups[i];
      if LastStates(groups, u, j) && j < n {
        assert LastStates(init, u, j);
      }
    }
  }

  /** A group without offers says why: what the last exchange to state an absence for
      the URL stated, and not in the catalog when no exchange answered for it. */
  lemma EmptyGroupSaysWhy(env: Env, net: Net, p: Plan, uris: seq<string>, groups: seq<OfferGroup>, i: nat)
    requires EachOnce(p) && Answers(env, net, p, uris, groups) && i < |uris| == |groups|
    ensures groups[i].offers != [] ==> groups[i].absence.None?
    ensures groups[i].offers == [] && Answered(net, p, |p.order|, uris[i]) ==>
              groups[i].absence == Stated(net, p, |p.order|, uris[i])
    ensures !Answered(net, p, |p.order|, uris[i]) ==> groups[i].offers == [] && groups[i].absence == Some("NOT_IN_CATALOG")
  {
    hide EachOnce, Reduced, ReplyOf, Answered;
    var n, u := |p.order|, uris[i];
    var held: map<string, Acc> :| Holds(env, net, p, n, held) && |groups| == |uris| &&
                                  forall i | 0 <= i < |uris| :: GroupFor(held, uris[i], groups[i]);
    assert HoldsAt(env, net, p, n, held, u) && GroupFor(held, u, groups[i]);
    var cands := At(held, u).cands;
    if cands != [] && u in held {
      AsksIff(cands[0].offer, Charge(cands[0]));
      ReducedKeeps(cands, groups[i].offers, cands[0], Charge(cands[0]));
    }
  }

  /** With no usable exchange under the empty domain, that is the exchange the
      routing rule gives the URL; a URL the rule routes nowhere has no offer. */
  lemma GroupsFromHome(env: Env, net: Net, uris: seq<string>, p: Plan, groups: seq<OfferGroup>, i: nat)
    requires ReadByDomain(env) && Usable(env, "").None?
    requires Plans(uris, Routes(env, uris).0, p) && EchoesOnly(net, p)
    requires Answers(env, net, p, uris, groups) && i < |uris|
    ensures |groups| == |uris| && groups[i].uri == uris[i]
    ensures forall c | c in groups[i].offers ::
              RouteOf(env, uris[i]).Some? && VerifiedBy(env, RouteOf(env, uris[i]).value, c)
  {
    hide Usable, RouteOf, EchoesOnly, Plans, Routes, Holds, VerifiedBy;
    MemoAgrees(env, uris);
    forall c | c in groups[i].offers
      ensures RouteOf(env, uris[i]).Some? && VerifiedBy(env, RouteOf(env, uris[i]).value, c)
    {
      GroupsFromRoutes(env, net, uris, p, groups, i, c);
      var ex :| RoutedHere(uris, Routes(env, uris).0, uris[i], ex) && VerifiedBy(env, ex, c);
    }
  }

  /******* An exchange that answers for another's URL *******/

  const ROW_A := Exchange("a", "e", "VERIFIED", true, 0)
  const ROW_B := Exchange("b", "e", "VERIFIED", true, 0)

  lemma StrayPlan() returns (env: Env, p: Plan)
    ensures ReadByDomain(env) && Usable(env, "").None? && forall o :: env.verified(o)
    ensures RouteOf(env, "x") == Some(ROW_A) && p == PlanFrom(["x", "y"], Routes(env, ["x", "y"]).0)
    ensures p.order == ["a", "b"] && EachOnce(p) && p.exchanges["a"] == ROW_A && p.exchanges["b"] == ROW_B
  {
    env := Env((u: string) => Some(u), map["x" := ["a"], "y" := ["b"]],
      d => if d == "" then NotFound else Row(Exchange(d, "", "VERIFIED", true, 0)), d => Some("e"), o => true);
    var uris := ["x", "y"];
    MemoAgrees(env, uris);
    assert RouteOf(env, "x") == Some(ROW_A) && RouteOf(env, "y") == Some(ROW_B);
    var routes := Routes(env, uris).0;
    p := PlanFrom(uris, routes);
    hide Routes, RouteOf;
    assert uris[0] == "x" && uris[1] == "y";
    assert uris[..1] == ["x"] && routes[..1] == [Some(ROW_A)] && routes[1] == Some(ROW_B);
    assert uris[..1][0] == "x" && routes[..1][0] == Some(ROW_A);
    assert PlanFrom(uris[..1][..0], routes[..1][..0]) == NO_PLAN;
    var q := PlanFrom(uris[..1], routes[..1]);
    assert q == PlanStep(NO_PLAN, "x", ROW_A);
    assert p == PlanStep(q, "y", ROW_B);
  }

  /** Nothing in the collection step ties a group's URL to the leg it came from: a
      verified offer that b sends for a's URL lands in that URL's candidates. */
  lemma StrayOfferLands(o: Offer) returns (env: Env, net: Net, p: Plan)
    ensures ReadByDomain(env) && Usable(env, "").None?
    ensures p == PlanFrom(["x", "y"], Routes(env, ["x", "y"]).0) && EachOnce(p)
    ensures RouteOf(env, "x") == Some(ROW_A)
    ensures Gathered(env, net, p, |p.order|, "x") == [Candidate(o, RefOf(ROW_B))]
  {
    hide Routes, RouteOf, PlanFrom, EachOnce, Usable;
    env, p := StrayPlan();
    var reply := [WireGroup("x", [o], None)];
    net := Net(d => true, (ex: Exchange, us: seq<string>) => if ex == ROW_B then Replied(reply) else Replied([]));
    assert FromLeg(env, net, p, 0, "x") == [];
    assert reply[..0] == [] && [o][..0] == [];
    assert VerifiedFrom(env, ROW_B, [o]) == [Candidate(o, RefOf(ROW_B))];
    assert OffersFor(env, ROW_B, reply, "x") == [Candidate(o, RefOf(ROW_B))];
    assert FromLeg(env, net, p, 1, "x") == [Candidate(o, RefOf(ROW_B))];
    assert Gathered(env, net, p, 1, "x") == [];
  }
}
