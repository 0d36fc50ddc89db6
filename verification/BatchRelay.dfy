/** The broker's execute relay: envelope checks, one signature verify and one
    replay add, a whole-request admission gate, one sub-request per exchange,
    and a merge back into request order. Every outside effect is an event. */
module BatchRelay {
  import opened Text
  import opened Instant
  import opened Registry
  import opened ReplayStore
  import opened BatchTotal

  datatype Item = Item(offerId: string, exchange: string, payload: string)

  datatype TxRequest = TxRequest(
    ver: string, idempotencyKey: string, requester: string, items: seq<Item>, acceptance: string)

  /** One exchange's answer. */
  datatype Answer = Answer(items: seq<ResultItem>, agentHash: string)

  datatype TxResponse = TxResponse(items: seq<ResultItem>, agentHash: string, total: Outcome)

  /** Refused is a settled verdict about the manifest; Unreachable may clear. */
  datatype Resolution = Unreachable | Refused | Advertised(endpoint: string)

  datatype Kind = InvalidArgument | Unauthenticated | UpstreamUnavailable | Internal

  datatype Result<+T> = Ok(value: T) | Err(kind: Kind)

  /** Everything outside the relay: the signature verdict and the pair it
      proves, the replay store's health and clock, the registry, the well-known
      resolver, and what the k-th dispatched call answers. */
  datatype Env = Env(
    sig1: Option<(string, string)>, storeFails: bool, now: int,
    registry: string -> Lookup, resolve: string -> Resolution,
    execute: (nat, string, TxRequest) -> Option<Answer>, formats: real -> bool)

  datatype Event =
    | Verify(ok: bool) | ReplayAdd(seen: bool)
    | RegistryRead(domain: string) | Fetch(domain: string)
    | Execute(endpoint: string, sub: TxRequest)

  const REPLAY_TTL := 300 * SECOND

  /******* Admission of one exchange *******/

  predicate Payable(e: Exchange) { e.trust == "VERIFIED" || e.trust == "PREFERRED" }

  /** The registry row alone lets money go there. */
  predicate RowPasses(env: Env, domain: string) {
    var l := env.registry(domain);
    l.Row? && AdmissionOf(l.exchange).Live? && Payable(l.exchange)
  }

  function Admit(env: Env, domain: string): Result<string> {
    match env.registry(domain)
    case NotFound => Err(InvalidArgument)
    case ReadFailed => Err(Internal)
    case Row(e) =>
      match AdmissionOf(e)
      case Blocked => Err(InvalidArgument)
      case Down => Err(UpstreamUnavailable)
      case Live =>
        if !Payable(e) then Err(InvalidArgument)
        else
          match env.resolve(domain)
          case Unreachable => Err(UpstreamUnavailable)
          case Refused => Err(InvalidArgument)
          case Advertised(endpoint) => Ok(CanonicalEndpoint(endpoint))
  }

  /** An exchange is admitted exactly when its row is unblocked, healthy and
      VERIFIED or PREFERRED, and its own manifest yields an endpoint. */
  lemma AdmittedIff(env: Env, domain: string)
    ensures Admit(env, domain).Ok? <==>
            && env.registry(domain).Row? && env.registry(domain).exchange.healthy
            && env.registry(domain).exchange.trust in {"VERIFIED", "PREFERRED"}
            && env.resolve(domain).Advertised?
  {
  }

  /** What an exchange is refused for: the row first, then its manifest. */
  lemma RefusedFor(env: Env, domain: string)
    ensures var l, r := env.registry(domain), Admit(env, domain);
            if l.NotFound? then r == Err(InvalidArgument)
            else if l.ReadFailed? then r == Err(Internal)
            else if l.exchange.trust == "BLOCKED" then r == Err(InvalidArgument)
            else if !l.exchange.healthy then r == Err(UpstreamUnavailable)
            else if l.exchange.trust !in {"VERIFIED", "PREFERRED"} then r == Err(InvalidArgument)
            else
              match env.resolve(domain)
              case Unreachable => r == Err(UpstreamUnavailable)
              case Refused => r == Err(InvalidArgument)
              case Advertised(address) => r.Ok? && Stripped(address, r.value)
  {
  }

  /** to is address without its trailing slashes. */
  predicate Stripped(address: string, to: string) {
    && to <= address && (to == "" || to[|to| - 1] != '/')
    && forall i | |to| <= i < |address| :: address[i] == '/'
  }

  function AdmitEvents(env: Env, domain: string): seq<Event> {
    [RegistryRead(domain)] + if RowPasses(env, domain) then [Fetch(domain)] else []
  }

  /******* Grouping *******/

  /** The distinct exchanges in first-seen order. */
  function Order(items: seq<Item>): seq<string> {
    if items == [] then []
    else
      var rest := Order(items[..|items| - 1]);
      var d := items[|items| - 1].exchange;
      if d in rest then rest else rest + [d]
  }

  /** The items of one exchange, in request order. */
  function Of(items: seq<Item>, domain: string): seq<Item> {
    if items == [] then []
    else
      var rest := Of(items[..|items| - 1], domain);
      if items[|items| - 1].exchange == domain then rest + [items[|items| - 1]] else rest
  }

  datatype Group = Group(domain: string, endpoint: string, items: seq<Item>)

  /** The gate over a list of exchanges stops at the first refusal. */
  function AdmitAll(env: Env, items: seq<Item>, domains: seq<string>): Result<seq<Group>> {
    if domains == [] then Ok([])
    else
      match AdmitAll(env, items, domains[..|domains| - 1])
      case Err(k) => Err(k)
      case Ok(gs) =>
        var d := domains[|domains| - 1];
        match Admit(env, d)
        case Err(k) => Err(k)
        case Ok(endpoint) => Ok(gs + [Group(d, endpoint, Of(items, d))])
  }

  function GateEvents(env: Env, items: seq<Item>, domains: seq<string>): seq<Event> {
    if domains == [] then []
    else
      var rest := domains[..|domains| - 1];
      GateEvents(env, items, rest) +
      if AdmitAll(env, items, rest).Ok? then AdmitEvents(env, domains[|domains| - 1]) else []
  }

  predicate AllNamed(items: seq<Item>) { forall i | 0 <= i < |items| :: items[i].exchange != "" }

  function Resolved(env: Env, items: seq<Item>): Result<seq<Group>> {
    if AllNamed(items) then AdmitAll(env, items, Order(items)) else Err(InvalidArgument)
  }

  /******* Dispatch and merge *******/

  function Unavailable(offerId: string): ResultItem { ResultItem(offerId, None, Some(ContentUnavailable), "") }

  function Denials(items: seq<Item>): (out: seq<ResultItem>)
    ensures |out| == |items|
  {
    seq(|items|, i requires 0 <= i < |items| => Unavailable(items[i].offerId))
  }

  function Sub(req: TxRequest, g: Group): TxRequest { req.(items := g.items) }

  function Reply(env: Env, req: TxRequest, groups: seq<Group>, k: nat): Option<Answer>
    requires k < |groups|
  {
    env.execute(k, groups[k].endpoint, Sub(req, groups[k]))
  }

  /** What the k-th call puts in the result map: its answer, or a denial for
      every item it was sent. */
  function Contribution(env: Env, req: TxRequest, groups: seq<Group>, k: nat): seq<ResultItem>
    requires k < |groups|
  {
    var r := Reply(env, req, groups, k);
    if r.Some? then r.value.items
    else Denials(groups[k].items)
  }

  function AddAll(m: map<string, ResultItem>, its: seq<ResultItem>): map<string, ResultItem> {
    if its == [] then m
    else AddAll(m, its[..|its| - 1])[its[|its| - 1].offerId := its[|its| - 1]]
  }

  /** The result map after the first n calls. */
  function Collected(env: Env, req: TxRequest, groups: seq<Group>, n: nat): map<string, ResultItem>
    requires n <= |groups|
  {
    if n == 0 then map[] else AddAll(Collected(env, req, groups, n - 1), Contribution(env, req, groups, n - 1))
  }

  /** The first non-empty agent hash among the first n answers. */
  function HashOf(env: Env, req: TxRequest, groups: seq<Group>, n: nat): string
    requires n <= |groups|
  {
    if n == 0 then ""
    else
      var h := HashOf(env, req, groups, n - 1);
      var r := Reply(env, req, groups, n - 1);
      if h == "" && r.Some? then r.value.agentHash else h
  }

  function Merge(items: seq<Item>, results: map<string, ResultItem>): (out: seq<ResultItem>)
    ensures |out| == |items|
  {
    seq(|items|, i requires 0 <= i < |items| =>
      if items[i].offerId in results then results[items[i].offerId] else Unavailable(items[i].offerId))
  }

  function Dispatches(req: TxRequest, groups: seq<Group>): seq<Event> {
    seq(|groups|, i requires 0 <= i < |groups| => Execute(groups[i].endpoint, Sub(req, groups[i])))
  }

  function Merged(env: Env, req: TxRequest, groups: seq<Group>): seq<ResultItem> {
    Merge(req.items, Collected(env, req, groups, |groups|))
  }

  /******* The relay *******/

  datatype Served =
    | Rejected(kind: Kind)
    | Duplicate(first: nat, second: nat)
    | Relayed(response: TxResponse)

  predicate DistinctIds(items: seq<Item>) {
    forall i, j | 0 <= i < j < |items| :: items[i].offerId != items[j].offerId
  }

  class Relay {
    var store: MemoryReplayStore<(string, string)>
    var trace: seq<Event>

    constructor ()
      ensures trace == [] && store.seen == map[] && fresh(store)
    {
      store := new MemoryReplayStore<(string, string)>();
      trace := [];
    }

    /** A verified signature is recorded once; an unverified one never is. */
    method VerifyAndGuardReplay(env: Env) returns (r: Result<()>)
      modifies this`trace, store
      ensures env.sig1.None? ==>
                r == Err(Unauthenticated) && trace == old(trace) + [Verify(false)] && store.seen == old(store.seen)
      ensures env.sig1.Some? && env.storeFails ==>
                r == Err(Internal) && trace == old(trace) + [Verify(true)] && store.seen == old(store.seen)
      ensures env.sig1.Some? && !env.storeFails ==>
                var dup := ReplayStore.Live(old(store.seen), env.sig1.value, env.now);
                && r == (if dup then Err(Unauthenticated) else Ok(()))
                && trace == old(trace) + [Verify(true), ReplayAdd(dup)]
                && store.seen == AfterAdd(old(store.seen), env.sig1.value, env.now, REPLAY_TTL)
    {
      trace := trace + [Verify(env.sig1.Some?)];
      if env.sig1.None? {
        return Err(Unauthenticated);
      }
      if env.storeFails {
        return Err(Internal);
      }
      var dup := store.SeenOrAdd(env.sig1.value, env.now, REPLAY_TTL);
      trace := trace + [ReplayAdd(dup)];
      if dup {
        return Err(Unauthenticated);
      }
      return Ok(());
    }

    /** The row decides before anything is sent to the exchange. */
    method ResolveGroupEndpoint(env: Env, domain: string) returns (r: Result<string>)
      modifies this`trace
      ensures r == Admit(env, domain) && trace == old(trace) + AdmitEvents(env, domain)
    {
      trace := trace + [RegistryRead(domain)];
      var l := env.registry(domain);
      if l.NotFound? {
        return Err(InvalidArgument);
      }
      if l.ReadFailed? {
        return Err(Internal);
      }
      var admission := AdmissionOf(l.exchange);
      if admission.Down? {
        return Err(UpstreamUnavailable);
      }
      if admission.Blocked? {
        return Err(InvalidArgument);
      }
      if l.exchange.trust != "VERIFIED" && l.exchange.trust != "PREFERRED" {
        return Err(InvalidArgument);
      }
      trace := trace + [Fetch(domain)];
      match env.resolve(domain) {
        case Unreachable => return Err(UpstreamUnavailable);
        case Refused => return Err(InvalidArgument);
        case Advertised(endpoint) => return Ok(CanonicalEndpoint(endpoint));
      }
    }

    method ResolveGroups(env: Env, items: seq<Item>) returns (r: Result<seq<Group>>)
      modifies this`trace
      ensures r == Resolved(env, items)
      ensures trace == old(trace) + if AllNamed(items) then GateEvents(env, items, Order(items)) else []
    {
      hide Admit, AdmitEvents, Of, Order, AdmitAll, GateEvents, Grouped;
      var named, order, byDomain := GroupByExchange(items);
      if !named {
        return Err(InvalidArgument);
      }
      var groups: seq<Group> := [];
      GateStart(env, items, order, byDomain);
      for i := 0 to |order|
        invariant AdmitAll(env, items, order[..i]) == Ok(groups)
        invariant trace == old(trace) + GateEvents(env, items, order[..i])
      {
        GateNext(env, items, order, i);
        GroupOf(items, order, byDomain, i);
        var endpoint := ResolveGroupEndpoint(env, order[i]);
        if endpoint.Err? {
          GateStops(env, items, order, i + 1);
          return Err(endpoint.kind);
        }
        groups := groups + [Group(order[i], endpoint.value, byDomain[order[i]])];
      }
      assert order[..|order|] == order;
      return Ok(groups);
    }

    method FanOut(env: Env, req: TxRequest, groups: seq<Group>) returns (resp: TxResponse)
      modifies this`trace
      ensures trace == old(trace) + Dispatches(req, groups)
      ensures resp.items == Merged(env, req, groups)
      ensures resp.agentHash == HashOf(env, req, groups, |groups|)
      ensures exists out :: IsTotal(resp.items, env.formats, out) && resp.total == if out.Present? then out else Absent
    {
      hide IsTotal, Collected, HashOf, Dispatches, Merge, AddAll;
      var results: map<string, ResultItem> := map[];
      var agentHash := "";
      FanOutStart(env, req, groups);
      for k := 0 to |groups|
        invariant results == Collected(env, req, groups, k)
        invariant agentHash == HashOf(env, req, groups, k)
        invariant trace == old(trace) + Dispatches(req, groups)[..k]
      {
        FanOutNext(env, req, groups, k);
        var g := groups[k];
        var sub := req.(items := g.items);
        trace := trace + [Execute(g.endpoint, sub)];
        var answer := env.execute(k, g.endpoint, sub);
        if answer.None? {
          results := CollectGroupDenials(results, g.items);
          continue;
        }
        results := CollectAnswer(results, answer.value.items);
        if agentHash == "" {
          agentHash := answer.value.agentHash;
        }
      }
      assert Dispatches(req, groups)[..|groups|] == Dispatches(req, groups);
      var merged := MergeResults(req.items, results);
      var out := Compute(merged, env.formats);
      resp := TxResponse(merged, agentHash, if out.Present? then out else Absent);
    }

    /** The pipeline: envelope, verify and replay, admission, fan-out. A request
        refused on its envelope touches nothing; a replay slot is spent only by
        a verified signature. */
    method ServeBatch(env: Env, body: Option<TxRequest>) returns (out: Served)
      modifies this`trace, store
      ensures body.None? || body.value.items == [] || !DistinctIds(body.value.items) <==> trace == old(trace)
      ensures trace == old(trace) ==> !out.Relayed? && store.seen == old(store.seen)
      ensures trace != old(trace) ==> trace == old(trace) + RunEvents(env, old(store.seen), body.value)
      ensures trace != old(trace) ==>
                store.seen == (if env.sig1.Some? && !env.storeFails
                               then AfterAdd(old(store.seen), env.sig1.value, env.now, REPLAY_TTL) else old(store.seen))
      ensures body.None? || body.value.items == [] ==> out == Rejected(InvalidArgument)
      ensures body.Some? && body.value.items != [] ==> (out.Duplicate? <==> !DistinctIds(body.value.items))
      ensures trace != old(trace) && env.sig1.None? ==> out == Rejected(Unauthenticated)
      ensures trace != old(trace) && env.sig1.Some? && env.storeFails ==> out == Rejected(Internal)
      ensures trace != old(trace) && env.sig1.Some? && !env.storeFails && !Guarded(env, old(store.seen)) ==>
                out == Rejected(Unauthenticated)
      ensures trace != old(trace) && Guarded(env, old(store.seen)) && !AllNamed(body.value.items) ==>
                out == Rejected(InvalidArgument)
      ensures trace != old(trace) && Guarded(env, old(store.seen)) && AllNamed(body.value.items) ==>
                forall i | 0 <= i < |body.value.items| && Admit(env, body.value.items[i].exchange).Err? &&
                           (forall j | 0 <= j < i :: Admit(env, body.value.items[j].exchange).Ok?) ::
                  out == Rejected(Admit(env, body.value.items[i].exchange).kind)
      ensures out.Relayed? <==>
                trace != old(trace) && Guarded(env, old(store.seen)) && Resolved(env, body.value.items).Ok?
      ensures out.Relayed? ==> Assembled(env, body.value, Resolved(env, body.value.items).value, out.response)
      ensures out.Duplicate? ==>
                body.Some? && out.first < out.second < |body.value.items| &&
                body.value.items[out.first].offerId == body.value.items[out.second].offerId
    {
      hide Resolved, Assembled, GateEvents, Admit, AdmitAll, DistinctIds, Order, AllNamed, HashOf, Merged, IsTotal, Dispatches, ReplayStore.Sweep;
      if body.None? {
        return Rejected(InvalidArgument);
      }
      var req := body.value;
      if |req.items| == 0 {
        return Rejected(InvalidArgument);
      }
      var dup := DuplicateScan(req.items);
      if dup.Some? {
        return Duplicate(dup.value.0, dup.value.1);
      }
      var guard := VerifyAndGuardReplay(env);
      if guard.Err? {
        return Rejected(guard.kind);
      }
      RefusalKinds(env, req.items);
      var groups := ResolveGroups(env, req.items);
      if groups.Err? {
        return Rejected(groups.kind);
      }
      var resp := FanOut(env, req, groups.value);
      AssembledBy(env, req, groups.value, resp);
      return Relayed(resp);
    }
  }

  lemma FanOutStart(env: Env, req: TxRequest, groups: seq<Group>)
    ensures Collected(env, req, groups, 0) == map[] && HashOf(env, req, groups, 0) == ""
    ensures |Dispatches(req, groups)| == |groups| && Dispatches(req, groups)[..0] == []
  {
  }

  lemma FanOutNext(env: Env, req: TxRequest, groups: seq<Group>, k: nat)
    requires k < |groups|
    ensures var answer := env.execute(k, groups[k].endpoint, req.(items := groups[k].items));
            var h := HashOf(env, req, groups, k);
            && Collected(env, req, groups, k + 1) ==
               AddAll(Collected(env, req, groups, k), if answer.None? then Denials(groups[k].items) else answer.value.items)
            && HashOf(env, req, groups, k + 1) == (if h == "" && answer.Some? then answer.value.agentHash else h)
    ensures var ds := Dispatches(req, groups);
            |ds| == |groups| && ds[..k + 1] == ds[..k] + [Execute(groups[k].endpoint, req.(items := groups[k].items))]
  {
    hide AddAll, Denials;
  }

  lemma RefusalKinds(env: Env, items: seq<Item>)
    ensures !AllNamed(items) ==> Resolved(env, items) == Err(InvalidArgument)
    ensures AllNamed(items) ==>
              forall i | 0 <= i < |items| && Admit(env, items[i].exchange).Err? &&
                         (forall j | 0 <= j < i :: Admit(env, items[j].exchange).Ok?) ::
                Resolved(env, items) == Err(Admit(env, items[i].exchange).kind)
  {
    hide Admit, AdmitAll, Order;
    if AllNamed(items) {
      forall i | 0 <= i < |items| && Admit(env, items[i].exchange).Err? &&
                 (forall j | 0 <= j < i :: Admit(env, items[j].exchange).Ok?)
        ensures Resolved(env, items) == Err(Admit(env, items[i].exchange).kind)
      {
        FirstRefused(env, items, i);
      }
    }
  }

  /** A response whose items, hash and total are those of the dispatched groups. */
  ghost predicate Assembled(env: Env, req: TxRequest, groups: seq<Group>, resp: TxResponse) {
    && resp.items == Merged(env, req, groups) && resp.agentHash == HashOf(env, req, groups, |groups|)
    && exists out :: IsTotal(resp.items, env.formats, out) && resp.total == if out.Present? then out else Absent
  }

  lemma AssembledBy(env: Env, req: TxRequest, groups: seq<Group>, resp: TxResponse)
    requires resp.items == Merged(env, req, groups) && resp.agentHash == HashOf(env, req, groups, |groups|)
    requires exists out :: IsTotal(resp.items, env.formats, out) && resp.total == if out.Present? then out else Absent
    ensures Assembled(env, req, groups, resp)
  {
  }

  /** The signature verified, and this is its first use. */
  predicate Guarded(env: Env, seen: map<(string, string), int>) {
    env.sig1.Some? && !env.storeFails && !ReplayStore.Live(seen, env.sig1.value, env.now)
  }

  function GuardEvents(env: Env, seen: map<(string, string), int>): seq<Event> {
    [Verify(env.sig1.Some?)] +
    if env.sig1.Some? && !env.storeFails then [ReplayAdd(ReplayStore.Live(seen, env.sig1.value, env.now))] else []
  }

  /** Everything a request with a well-formed envelope makes happen. */
  function RunEvents(env: Env, seen: map<(string, string), int>, req: TxRequest): seq<Event> {
    var groups := Resolved(env, req.items);
    GuardEvents(env, seen) +
    if !Guarded(env, seen) then []
    else
      (if AllNamed(req.items) then GateEvents(env, req.items, Order(req.items)) else []) +
      if groups.Ok? then Dispatches(req, groups.value) else []
  }

  /** The first position whose offer id was already used, with the earlier one. */
  method DuplicateScan(items: seq<Item>) returns (dup: Option<(nat, nat)>)
    ensures dup.None? <==> DistinctIds(items)
    ensures dup.Some? ==>
              var (j, i) := dup.value;
              j < i < |items| && items[j].offerId == items[i].offerId && DistinctIds(items[..i])
  {
    var seen: map<string, nat> := map[];
    for i := 0 to |items|
      invariant DistinctIds(items[..i])
      invariant forall id | id in seen :: seen[id] < i && items[seen[id]].offerId == id
      invariant forall k | 0 <= k < i :: items[k].offerId in seen
    {
      var id := items[i].offerId;
      if id in seen {
        return Some((seen[id], i));
      }
      seen := seen[id := i];
    }
    assert items[..|items|] == items;
    return None;
  }

  /** The two accumulators after the items in done. */
  ghost predicate Grouped(done: seq<Item>, order: seq<string>, byDomain: map<string, seq<Item>>) {
    && order == Order(done)
    && (forall d :: d in byDomain <==> d in order)
    && (forall d :: Of(done, d) == if d in byDomain then byDomain[d] else [])
  }

  method GroupByExchange(items: seq<Item>)
    returns (named: bool, order: seq<string>, byDomain: map<string, seq<Item>>)
    ensures named <==> AllNamed(items)
    ensures named ==> Grouped(items, order, byDomain)
  {
    hide Grouped;
    order, byDomain := [], map[];
    GroupedNothing();
    assert items[..0] == [];
    for i := 0 to |items|
      invariant AllNamed(items[..i]) && Grouped(items[..i], order, byDomain)
    {
      var d := items[i].exchange;
      if d == "" {
        return false, [], map[];
      }
      GroupedNext(items, i, order, byDomain);
      if d !in byDomain {
        order := order + [d];
      }
      byDomain := byDomain[d := (if d in byDomain then byDomain[d] else []) + [items[i]]];
    }
    assert items[..|items|] == items;
    return true, order, byDomain;
  }

  lemma GroupedNothing()
    ensures Grouped([], [], map[])
  {
  }

  lemma GroupedNext(items: seq<Item>, i: nat, order: seq<string>, byDomain: map<string, seq<Item>>)
    requires i < |items| && Grouped(items[..i], order, byDomain)
    ensures var d := items[i].exchange;
            Grouped(items[..i + 1], if d in byDomain then order else order + [d],
                    byDomain[d := (if d in byDomain then byDomain[d] else []) + [items[i]]])
  {
    assert items[..i + 1][..i] == items[..i];
  }

  method CollectGroupDenials(m: map<string, ResultItem>, items: seq<Item>) returns (out: map<string, ResultItem>)
    ensures out == AddAll(m, Denials(items))
  {
    ghost var denials := Denials(items);
    out := m;
    for i := 0 to |items|
      invariant out == AddAll(m, denials[..i])
    {
      assert denials[..i + 1][..i] == denials[..i];
      out := out[items[i].offerId := Unavailable(items[i].offerId)];
    }
    assert denials[..|items|] == denials;
  }

  method CollectAnswer(m: map<string, ResultItem>, its: seq<ResultItem>) returns (out: map<string, ResultItem>)
    ensures out == AddAll(m, its)
  {
    out := m;
    for i := 0 to |its|
      invariant out == AddAll(m, its[..i])
    {
      assert its[..i + 1][..i] == its[..i];
      out := out[its[i].offerId := its[i]];
    }
    assert its[..|its|] == its;
  }

  method MergeResults(items: seq<Item>, results: map<string, ResultItem>) returns (merged: seq<ResultItem>)
    ensures merged == Merge(items, results)
  {
    merged := [];
    for i := 0 to |items|
      invariant merged == Merge(items, results)[..i]
    {
      if items[i].offerId in results {
        merged := merged + [results[items[i].offerId]];
      } else {
        merged := merged + [Unavailable(items[i].offerId)];
      }
    }
  }

  lemma GateStart(env: Env, items: seq<Item>, order: seq<string>, byDomain: map<string, seq<Item>>)
    requires Grouped(items, order, byDomain)
    ensures order == Order(items) && AdmitAll(env, items, order[..0]) == Ok([]) && GateEvents(env, items, order[..0]) == []
  {
  }

  lemma GroupOf(items: seq<Item>, order: seq<string>, byDomain: map<string, seq<Item>>, i: nat)
    requires Grouped(items, order, byDomain) && i < |order|
    ensures order[i] in byDomain && byDomain[order[i]] == Of(items, order[i])
  {
    assert order[i] in order;
  }

  lemma GateNext(env: Env, items: seq<Item>, order: seq<string>, i: nat)
    requires i < |order| && AdmitAll(env, items, order[..i]).Ok?
    ensures GateEvents(env, items, order[..i + 1]) == GateEvents(env, items, order[..i]) + AdmitEvents(env, order[i])
    ensures AdmitAll(env, items, order[..i + 1]) ==
            match Admit(env, order[i])
            case Err(k) => Err(k)
            case Ok(endpoint) => Ok(AdmitAll(env, items, order[..i]).value + [Group(order[i], endpoint, Of(items, order[i]))])
  {
    hide Admit, AdmitEvents, Of;
    assert order[..i + 1][..i] == order[..i];
  }

  lemma {:induction false} GateStops(env: Env, items: seq<Item>, order: seq<string>, n: nat)
    requires n <= |order| && AdmitAll(env, items, order[..n]).Err?
    ensures AdmitAll(env, items, order) == AdmitAll(env, items, order[..n])
    ensures GateEvents(env, items, order) == GateEvents(env, items, order[..n])
    decreases |order|
  {
    hide Admit, AdmitEvents;
    if n < |order| {
      assert order[..|order| - 1][..n] == order[..n];
      GateStops(env, items, order[..|order| - 1], n);
    } else {
      assert order[..n] == order;
    }
  }

  /******* The gate, as a whole *******/

  predicate NoRepeats(ds: seq<string>) { forall i, j | 0 <= i < j < |ds| :: ds[i] != ds[j] }

  lemma {:induction false} OrderFacts(items: seq<Item>)
    ensures NoRepeats(Order(items))
    ensures forall d :: d in Order(items) <==> exists i | 0 <= i < |items| :: items[i].exchange == d
  {
    if items == [] {
    } else {
      var n := |items| - 1;
      OrderFacts(items[..n]);
      forall d
        ensures d in Order(items) <==> exists i | 0 <= i < |items| :: items[i].exchange == d
      {
        if d in Order(items[..n]) {
          var i :| 0 <= i < n && items[..n][i].exchange == d;
          assert items[i].exchange == d;
        } else {
          assert forall i | 0 <= i < n :: items[..n][i] == items[i];
        }
      }
    }
  }

  lemma {:induction false} AdmitAllFacts(env: Env, items: seq<Item>, ds: seq<string>)
    ensures AdmitAll(env, items, ds).Ok? <==> forall i | 0 <= i < |ds| :: Admit(env, ds[i]).Ok?
    ensures AdmitAll(env, items, ds).Ok? ==>
              && |AdmitAll(env, items, ds).value| == |ds|
              && forall i | 0 <= i < |ds| ::
                   AdmitAll(env, items, ds).value[i] == Group(ds[i], Admit(env, ds[i]).value, Of(items, ds[i]))
  {
    hide Admit, Of;
    if ds == [] {
    } else {
      var n := |ds| - 1;
      AdmitAllFacts(env, items, ds[..n]);
      assert forall i | 0 <= i < n :: ds[..n][i] == ds[i];
    }
  }

  /** The whole request is admitted exactly when every item names an exchange
      and every named exchange is admitted; the groups then are one per distinct
      exchange, in first-seen order, each with its own items. */
  lemma ResolvedIff(env: Env, items: seq<Item>)
    ensures Resolved(env, items).Ok? <==>
            forall i | 0 <= i < |items| :: items[i].exchange != "" && Admit(env, items[i].exchange).Ok?
    ensures Resolved(env, items).Ok? ==>
              var gs := Resolved(env, items).value;
              && |gs| == |Order(items)| && NoRepeats(Order(items))
              && (forall k | 0 <= k < |gs| :: gs[k].domain == Order(items)[k] && gs[k].items == Of(items, gs[k].domain))
  {
    hide Admit, Of, Order, AdmitAll;
    var order := Order(items);
    OrderFacts(items);
    AdmitAllFacts(env, items, order);
    if forall i | 0 <= i < |items| :: items[i].exchange != "" && Admit(env, items[i].exchange).Ok? {
      forall k | 0 <= k < |order|
        ensures Admit(env, order[k]).Ok?
      {
        assert order[k] in order;
      }
    }
    if Resolved(env, items).Ok? {
      forall i | 0 <= i < |items|
        ensures items[i].exchange != "" && Admit(env, items[i].exchange).Ok?
      {
        assert items[i].exchange in order;
      }
    }
  }

  predicate IsEffect(e: Event) { e.RegistryRead? || e.Fetch? || e.Execute? }

  function Executes(es: seq<Event>): seq<Event> {
    if es == [] then []
    else
      var rest := Executes(es[..|es| - 1]);
      if es[|es| - 1].Execute? then rest + [es[|es| - 1]] else rest
  }

  lemma {:induction false} ExecutesConcat(a: seq<Event>, b: seq<Event>)
    ensures Executes(a + b) == Executes(a) + Executes(b)
  {
    if b == [] {
      assert a + b == a;
    } else {
      assert (a + b)[..|a + b| - 1] == a + b[..|b| - 1];
      ExecutesConcat(a, b[..|b| - 1]);
    }
  }

  lemma {:induction false} ExecutesOfAll(es: seq<Event>)
    ensures (forall i | 0 <= i < |es| :: es[i].Execute?) ==> Executes(es) == es
    ensures (forall i | 0 <= i < |es| :: !es[i].Execute?) ==> Executes(es) == []
  {
    if es == [] {
    } else {
      ExecutesOfAll(es[..|es| - 1]);
    }
  }

  /** The gate's events are reads and fetches only; a fetch directly follows the
      read of its own exchange, whose row passed. */
  lemma {:induction false} GateEventsFacts(env: Env, items: seq<Item>, ds: seq<string>, i: nat)
    requires i < |GateEvents(env, items, ds)|
    ensures var es := GateEvents(env, items, ds);
            && (es[i].RegistryRead? || es[i].Fetch?)
            && (es[i].Fetch? ==> RowPasses(env, es[i].domain) && i > 0 && es[i - 1] == RegistryRead(es[i].domain))
  {
    hide AdmitAll, RowPasses;
    var rest := GateEvents(env, items, ds[..|ds| - 1]);
    if i < |rest| {
      GateEventsFacts(env, items, ds[..|ds| - 1], i);
    }
  }

  /** Nothing about any exchange is read, fetched or sent before the signature
      has verified and been recorded as new; and a well-known is fetched only
      for an exchange whose row passed, right after reading that row. */
  lemma GuardComesFirst(env: Env, seen: map<(string, string), int>, req: TxRequest, i: nat)
    requires i < |RunEvents(env, seen, req)| && IsEffect(RunEvents(env, seen, req)[i])
    ensures var es := RunEvents(env, seen, req);
            && i >= 2 && es[0] == Verify(true) && es[1] == ReplayAdd(false)
            && (es[i].Fetch? ==> RowPasses(env, es[i].domain) && es[i - 1] == RegistryRead(es[i].domain))
  {
    hide Resolved, GateEvents, RowPasses, Order;
    var guard := GuardEvents(env, seen);
    var gate := if AllNamed(req.items) then GateEvents(env, req.items, Order(req.items)) else [];
    if Guarded(env, seen) && |guard| <= i < |guard| + |gate| {
      GateEventsFacts(env, req.items, Order(req.items), i - |guard|);
    }
  }

  /** Every item names an exchange that is unblocked, healthy, approved and
      resolved (AdmittedIff). */
  predicate AllAdmitted(env: Env, items: seq<Item>) {
    forall i | 0 <= i < |items| :: items[i].exchange != "" && Admit(env, items[i].exchange).Ok?
  }

  /** e pays the k-th distinct exchange for exactly its own items. */
  predicate Pays(env: Env, req: TxRequest, k: nat, e: Event) {
    && k < |Order(req.items)| && Admit(env, Order(req.items)[k]).Ok?
    && e == Execute(Admit(env, Order(req.items)[k]).value, req.(items := Of(req.items, Order(req.items)[k])))
  }

  lemma OnlyDispatchesSend(env: Env, seen: map<(string, string), int>, req: TxRequest)
    ensures Executes(RunEvents(env, seen, req)) ==
            if Guarded(env, seen) && Resolved(env, req.items).Ok? then Dispatches(req, Resolved(env, req.items).value) else []
  {
    hide Resolved, GateEvents, Order, AllNamed, Executes, GuardEvents, Guarded;
    var groups := Resolved(env, req.items);
    var guard := GuardEvents(env, seen);
    var gate := if AllNamed(req.items) then GateEvents(env, req.items, Order(req.items)) else [];
    var sent := if groups.Ok? then Dispatches(req, groups.value) else [];
    GateSendsNothing(env, req.items, gate);
    GuardSendsNothing(env, seen);
    ExecutesOfAll(gate);
    ExecutesOfAll(guard);
    ExecutesOfAll(sent);
    ExecutesConcat(guard, gate + sent);
    ExecutesConcat(gate, sent);
    if Guarded(env, seen) {
      assert RunEvents(env, seen, req) == guard + (gate + sent);
    } else {
      assert RunEvents(env, seen, req) == guard;
    }
  }

  lemma GateSendsNothing(env: Env, items: seq<Item>, gate: seq<Event>)
    requires gate == (if AllNamed(items) then GateEvents(env, items, Order(items)) else [])
    ensures forall i | 0 <= i < |gate| :: !gate[i].Execute?
  {
    hide GateEvents, Order;
    forall i | 0 <= i < |gate|
      ensures !gate[i].Execute?
    {
      GateEventsFacts(env, items, Order(items), i);
    }
  }

  lemma GuardSendsNothing(env: Env, seen: map<(string, string), int>)
    ensures forall i | 0 <= i < |GuardEvents(env, seen)| :: !GuardEvents(env, seen)[i].Execute?
  {
  }

  /** Money moves to no exchange, or to every distinct exchange of the request
      exactly once, in first-seen order; and the latter exactly when the
      signature is verified and new and every named exchange is admitted. */
  lemma AllOrNothingDispatch(env: Env, seen: map<(string, string), int>, req: TxRequest)
    ensures var sent := Executes(RunEvents(env, seen, req));
            if Guarded(env, seen) && AllAdmitted(env, req.items)
            then |sent| == |Order(req.items)| && forall k | 0 <= k < |sent| :: Pays(env, req, k, sent[k])
            else sent == []
  {
    hide Resolved, Order, Admit, Of, Executes, RunEvents, Guarded;
    OnlyDispatchesSend(env, seen, req);
    ResolvedIff(env, req.items);
    if Resolved(env, req.items).Ok? {
      GroupsPay(env, req);
    }
  }

  lemma GroupsPay(env: Env, req: TxRequest)
    requires Resolved(env, req.items).Ok?
    ensures var sent := Dispatches(req, Resolved(env, req.items).value);
            |sent| == |Order(req.items)| && forall k | 0 <= k < |sent| :: Pays(env, req, k, sent[k])
  {
    hide Order, Admit, Of, AdmitAll;
    AdmitAllFacts(env, req.items, Order(req.items));
  }

  lemma {:induction false} ExecuteListed(es: seq<Event>, i: nat)
    requires i < |es| && es[i].Execute?
    ensures es[i] in Executes(es)
  {
    if i == |es| - 1 {
    } else {
      ExecuteListed(es[..|es| - 1], i);
    }
  }

  /** Every payment of a run goes to an exchange some item names, whose row is
      healthy and VERIFIED or PREFERRED, at the address that exchange's own manifest
      advertises without its trailing slashes; and it carries that exchange's items
      only. The registry's endpoint column plays no part. */
  lemma PaidWhereAdvertised(env: Env, seen: map<(string, string), int>, req: TxRequest, i: nat)
    requires i < |RunEvents(env, seen, req)| && RunEvents(env, seen, req)[i].Execute?
    ensures var e := RunEvents(env, seen, req)[i];
            && e.sub == req.(items := e.sub.items) && e.sub.items != []
            && var d := e.sub.items[0].exchange;
            && (forall x :: x in e.sub.items <==> x in req.items && x.exchange == d)
            && env.registry(d).Row? && env.registry(d).exchange.healthy
            && env.registry(d).exchange.trust in {"VERIFIED", "PREFERRED"}
            && env.resolve(d).Advertised? && Stripped(env.resolve(d).endpoint, e.endpoint)
  {
    hide RunEvents, Executes, Order, Of, Guarded, AllAdmitted, Admit;
    var es := RunEvents(env, seen, req);
    ExecuteListed(es, i);
    AllOrNothingDispatch(env, seen, req);
    var sent := Executes(es);
    var k :| 0 <= k < |sent| && sent[k] == es[i];
    assert Pays(env, req, k, sent[k]);
    var d := Order(req.items)[k];
    RefusedFor(env, d);
    AdmittedIff(env, d);
    OrderFacts(req.items);
    assert d in Order(req.items);
    var j :| 0 <= j < |req.items| && req.items[j].exchange == d;
    var own := Of(req.items, d);
    forall x
      ensures x in own <==> x in req.items && x.exchange == d
    {
      OfExchange(req.items, d, x);
    }
    assert req.items[j] in own;
    assert own[0] in own;
  }

  /******* First-seen order, and the first refusal *******/

  /** The order of a prefix of the items is a prefix of the order, and lists exactly
      the exchanges of that prefix: exchanges stand where they are first seen. */
  lemma {:induction false} OrderFirstSeen(items: seq<Item>, m: nat)
    requires m <= |items|
    ensures Order(items[..m]) <= Order(items)
    ensures forall d :: d in Order(items[..m]) <==> exists i | 0 <= i < m :: items[i].exchange == d
    decreases |items| - m
  {
    OrderFacts(items[..m]);
    assert forall i | 0 <= i < m :: items[..m][i] == items[i];
    if m == |items| {
      assert items[..m] == items;
    } else {
      OrderFirstSeen(items, m + 1);
      assert items[..m + 1][..m] == items[..m];
    }
  }

  lemma {:induction false} RefusalSticks(env: Env, items: seq<Item>, ds: seq<string>, n: nat)
    requires n <= |ds| && AdmitAll(env, items, ds[..n]).Err?
    ensures AdmitAll(env, items, ds) == AdmitAll(env, items, ds[..n])
  {
    hide Admit, Of;
    if n == |ds| {
      assert ds[..n] == ds;
    } else {
      assert ds[..|ds| - 1][..n] == ds[..n];
      RefusalSticks(env, items, ds[..|ds| - 1], n);
    }
  }

  /** The whole request is refused for the first item whose exchange is. */
  lemma FirstRefused(env: Env, items: seq<Item>, i: nat)
    requires AllNamed(items) && i < |items| && Admit(env, items[i].exchange).Err?
    requires forall j | 0 <= j < i :: Admit(env, items[j].exchange).Ok?
    ensures Resolved(env, items) == Err(Admit(env, items[i].exchange).kind)
  {
    hide Admit, Of, AdmitAll;
    var before, upto, d := Order(items[..i]), Order(items[..i + 1]), items[i].exchange;
    OrderFirstSeen(items, i);
    OrderFirstSeen(items, i + 1);
    assert items[..i + 1][..i] == items[..i];
    assert d !in before;
    assert upto == before + [d];
    hide Order;
    forall k | 0 <= k < |before|
      ensures Admit(env, before[k]).Ok?
    {
      assert before[k] in before;
    }
    AdmitAllFacts(env, items, before);
    NextRefused(env, items, before, d);
    assert Order(items)[..|upto|] == before + [d];
    RefusalSticks(env, items, Order(items), |upto|);
  }

  lemma NextRefused(env: Env, items: seq<Item>, ds: seq<string>, d: string)
    requires AdmitAll(env, items, ds).Ok? && Admit(env, d).Err?
    ensures AdmitAll(env, items, ds + [d]) == Err(Admit(env, d).kind)
  {
    hide Admit, Of;
    assert (ds + [d])[..|ds|] == ds;
  }

  /******* Sub-requests partition the request *******/

  /** The positions of one exchange's items. */
  function Positions(items: seq<Item>, domain: string): seq<nat> {
    if items == [] then []
    else
      var rest := Positions(items[..|items| - 1], domain);
      if items[|items| - 1].exchange == domain then rest + [|items| - 1] else rest
  }

  predicate Increasing(at: seq<nat>, bound: nat) {
    && (forall k | 0 <= k < |at| :: at[k] < bound)
    && (forall j, k | 0 <= j < k < |at| :: at[j] < at[k])
  }

  lemma {:induction false} PositionsFacts(items: seq<Item>, domain: string)
    ensures Increasing(Positions(items, domain), |items|)
  {
    if items == [] {
    } else {
      PositionsFacts(items[..|items| - 1], domain);
    }
  }

  lemma {:induction false} PositionsExact(items: seq<Item>, domain: string, i: nat)
    requires i < |items|
    ensures items[i].exchange == domain <==> i in Positions(items, domain)
  {
    var n := |items| - 1;
    PositionsFacts(items[..n], domain);
    if i < n {
      PositionsExact(items[..n], domain, i);
    } else {
      assert i !in Positions(items[..n], domain);
    }
  }

  lemma {:induction false} OfAtPositions(items: seq<Item>, domain: string)
    ensures |Of(items, domain)| == |Positions(items, domain)|
    ensures forall k | 0 <= k < |Positions(items, domain)| ::
              Positions(items, domain)[k] < |items| && Of(items, domain)[k] == items[Positions(items, domain)[k]]
  {
    if items == [] {
    } else {
      OfAtPositions(items[..|items| - 1], domain);
    }
  }

  /** A sub-request is the order-preserving filter: increasing positions, exactly
      those of its exchange. */
  lemma {:induction false} SubRequestIsFilter(items: seq<Item>, domain: string)
    ensures var at := Positions(items, domain);
            && |Of(items, domain)| == |at|
            && (forall k | 0 <= k < |at| :: at[k] < |items| && Of(items, domain)[k] == items[at[k]])
            && Increasing(at, |items|)
            && (forall i | 0 <= i < |items| :: items[i].exchange == domain <==> i in at)
  {
    hide Of, Positions;
    PositionsFacts(items, domain);
    OfAtPositions(items, domain);
    forall i | 0 <= i < |items|
      ensures items[i].exchange == domain <==> i in Positions(items, domain)
    {
      PositionsExact(items, domain, i);
    }
  }

  function Parts(items: seq<Item>, ds: seq<string>): seq<Item> {
    if ds == [] then [] else Parts(items, ds[..|ds| - 1]) + Of(items, ds[|ds| - 1])
  }

  lemma Regroup(a: multiset<Item>, x: multiset<Item>, b: multiset<Item>, y: multiset<Item>)
    ensures (a + x) + (b + y) == (a + b) + (x + y)
  {
  }

  function Once(x: Item, present: bool): multiset<Item> { if present then multiset{x} else multiset{} }

  lemma {:induction false} PartsNext(items: seq<Item>, x: Item, ds: seq<string>)
    requires NoRepeats(ds)
    ensures multiset(Parts(items + [x], ds)) == multiset(Parts(items, ds)) + Once(x, x.exchange in ds)
  {
    if ds == [] {
    } else {
      var n := |ds| - 1;
      PartsNext(items, x, ds[..n]);
      hide *;
      Regroup(multiset(Parts(items, ds[..n])), Once(x, x.exchange in ds[..n]),
              multiset(Of(items, ds[n])), Once(x, x.exchange == ds[n]));
    }
  }

  lemma {:induction false} PartsOfAll(items: seq<Item>, ds: seq<string>)
    requires NoRepeats(ds) && forall i | 0 <= i < |items| :: items[i].exchange in ds
    ensures multiset(Parts(items, ds)) == multiset(items)
  {
    if items == [] {
      PartsOfNone(ds);
    } else {
      var n := |items| - 1;
      PartsOfAll(items[..n], ds);
      PartsNext(items[..n], items[n], ds);
      assert items == items[..n] + [items[n]];
    }
  }

  lemma {:induction false} PartsOfNone(ds: seq<string>)
    ensures Parts([], ds) == []
  {
    if ds == [] {
    } else {
      PartsOfNone(ds[..|ds| - 1]);
    }
  }

  /** The sub-requests together hold every item of the request exactly once. */
  lemma SubRequestsPartition(items: seq<Item>)
    ensures multiset(Parts(items, Order(items))) == multiset(items)
  {
    hide Order, Parts;
    OrderFacts(items);
    forall i | 0 <= i < |items|
      ensures items[i].exchange in Order(items)
    {
      assert items[i].exchange == items[i].exchange;
    }
    PartsOfAll(items, Order(items));
  }

  /******* The merge *******/

  /** The last answer under an offer id. */
  function LastWith(its: seq<ResultItem>, id: string): Option<ResultItem> {
    if its == [] then None
    else if its[|its| - 1].offerId == id then Some(its[|its| - 1])
    else LastWith(its[..|its| - 1], id)
  }

  lemma {:induction false} AddAllAt(m: map<string, ResultItem>, its: seq<ResultItem>, id: string)
    ensures var out := AddAll(m, its);
            var last := LastWith(its, id);
            if last.Some? then id in out && out[id] == last.value
            else (id in out <==> id in m) && (id in m ==> out[id] == m[id])
    ensures LastWith(its, id).Some? ==> LastWith(its, id).value.offerId == id && LastWith(its, id).value in its
  {
    if its == [] {
    } else {
      AddAllAt(m, its[..|its| - 1], id);
    }
  }

  /** The last of the first n calls that says anything under an offer id. */
  function LastSaying(env: Env, req: TxRequest, groups: seq<Group>, n: nat, id: string): Option<ResultItem>
    requires n <= |groups|
  {
    if n == 0 then None
    else
      var own := LastWith(Contribution(env, req, groups, n - 1), id);
      if own.Some? then own else LastSaying(env, req, groups, n - 1, id)
  }

  lemma {:induction false} CollectedAt(env: Env, req: TxRequest, groups: seq<Group>, n: nat, id: string)
    requires n <= |groups|
    ensures var last := LastSaying(env, req, groups, n, id);
            var m := Collected(env, req, groups, n);
            && (id in m <==> last.Some?) && (last.Some? ==> m[id] == last.value && last.value.offerId == id)
  {
    if n == 0 {
    } else {
      CollectedAt(env, req, groups, n - 1, id);
      AddAllAt(Collected(env, req, groups, n - 1), Contribution(env, req, groups, n - 1), id);
    }
  }

  /** The merged response has the request's length and offer-id order whatever
      the exchanges answer, and each item is the last word said under its id,
      or a denial when nothing was. */
  lemma MergedByPosition(env: Env, req: TxRequest, groups: seq<Group>, i: nat)
    requires i < |req.items|
    ensures var out := Merged(env, req, groups);
            var last := LastSaying(env, req, groups, |groups|, req.items[i].offerId);
            && |out| == |req.items| && out[i].offerId == req.items[i].offerId
            && out[i] == if last.Some? then last.value else Unavailable(req.items[i].offerId)
  {
    CollectedAt(env, req, groups, |groups|, req.items[i].offerId);
  }

  /** Every call answers only for offer ids it was sent. */
  predicate AnswersOwnIds(env: Env, req: TxRequest, groups: seq<Group>) {
    forall k, j | 0 <= k < |groups| && Reply(env, req, groups, k).Some? && 0 <= j < |Reply(env, req, groups, k).value.items| ::
      exists i | 0 <= i < |groups[k].items| ::
        groups[k].items[i].offerId == Reply(env, req, groups, k).value.items[j].offerId
  }

  lemma OfExchange(items: seq<Item>, domain: string, x: Item)
    ensures x in Of(items, domain) <==> x in items && x.exchange == domain
  {
    SubRequestIsFilter(items, domain);
    if x in items && x.exchange == domain {
      var i :| 0 <= i < |items| && items[i] == x;
      var at := Positions(items, domain);
      assert i in at;
      var k :| 0 <= k < |at| && at[k] == i;
      assert Of(items, domain)[k] == x;
    }
  }

  /** A call to another exchange says nothing under item i's id. */
  lemma OthersSilent(env: Env, req: TxRequest, groups: seq<Group>, i: nat, k: nat)
    requires Resolved(env, req.items) == Ok(groups) && DistinctIds(req.items) && AnswersOwnIds(env, req, groups)
    requires i < |req.items| && k < |groups| && groups[k].domain != req.items[i].exchange
    ensures LastWith(Contribution(env, req, groups, k), req.items[i].offerId).None?
  {
    hide Resolved, Of, Order;
    ResolvedIff(env, req.items);
    var id := req.items[i].offerId;
    forall x | x in groups[k].items
      ensures x.offerId != id
    {
      OfExchange(req.items, groups[k].domain, x);
      var j :| 0 <= j < |req.items| && req.items[j] == x;
    }
    var said := Contribution(env, req, groups, k);
    AddAllAt(map[], said, id);
    if LastWith(said, id).Some? {
      var j :| 0 <= j < |said| && said[j] == LastWith(said, id).value;
      SaidOwn(env, req, groups, k, j);
    }
  }

  lemma SaidOwn(env: Env, req: TxRequest, groups: seq<Group>, k: nat, j: nat)
    requires AnswersOwnIds(env, req, groups) && k < |groups| && j < |Contribution(env, req, groups, k)|
    ensures exists x | x in groups[k].items :: x.offerId == Contribution(env, req, groups, k)[j].offerId
  {
    if Reply(env, req, groups, k).Some? {
      var i :| 0 <= i < |groups[k].items| &&
        groups[k].items[i].offerId == Reply(env, req, groups, k).value.items[j].offerId;
      assert groups[k].items[i] in groups[k].items;
    } else {
      assert groups[k].items[j] in groups[k].items;
    }
  }

  lemma {:induction false} LastSayingOwn(env: Env, req: TxRequest, groups: seq<Group>, i: nat, own: nat, n: nat)
    requires Resolved(env, req.items) == Ok(groups) && DistinctIds(req.items) && AnswersOwnIds(env, req, groups)
    requires i < |req.items| && own < |groups| && groups[own].domain == req.items[i].exchange && n <= |groups|
    ensures LastSaying(env, req, groups, n, req.items[i].offerId) ==
            if n > own then LastWith(Contribution(env, req, groups, own), req.items[i].offerId) else None
  {
    hide Resolved, Contribution, DistinctIds, AnswersOwnIds;
    if n == 0 {
    } else {
      LastSayingOwn(env, req, groups, i, own, n - 1);
      ResolvedIff(env, req.items);
      if n - 1 != own {
        assert groups[n - 1].domain == Order(req.items)[n - 1] != Order(req.items)[own];
        OthersSilent(env, req, groups, i, n - 1);
      }
    }
  }

  /** When exchanges answer only for ids they were sent, item i of the merged
      response is its own exchange's answer for it, or CONTENT_UNAVAILABLE when
      that call failed or left it out. */
  lemma ItemIsOwnAnswer(env: Env, req: TxRequest, groups: seq<Group>, i: nat)
    requires Resolved(env, req.items) == Ok(groups) && DistinctIds(req.items) && AnswersOwnIds(env, req, groups)
    requires i < |req.items|
    ensures exists own | 0 <= own < |groups| ::
              && groups[own].domain == req.items[i].exchange
              && var reply := Reply(env, req, groups, own);
                 var id := req.items[i].offerId;
                 Merged(env, req, groups)[i] ==
                 if reply.Some? && LastWith(reply.value.items, id).Some? then LastWith(reply.value.items, id).value
                 else ResultItem(id, None, Some(ContentUnavailable), "")
  {
    hide Resolved, Merged, LastSaying, AnswersOwnIds, DistinctIds, Order;
    ResolvedIff(env, req.items);
    OrderFacts(req.items);
    assert req.items[i].exchange in Order(req.items);
    var own :| 0 <= own < |groups| && Order(req.items)[own] == req.items[i].exchange;
    LastSayingOwn(env, req, groups, i, own, |groups|);
    MergedByPosition(env, req, groups, i);
    DeniedIsUnavailable(groups[own].items, req.items[i].offerId);
  }

  lemma DeniedIsUnavailable(items: seq<Item>, id: string)
    ensures LastWith(Denials(items), id).Some? ==> LastWith(Denials(items), id).value == Unavailable(id)
  {
    AddAllAt(map[], Denials(items), id);
  }

  /** What call k says under an offer id. */
  function Word(env: Env, req: TxRequest, groups: seq<Group>, k: nat, id: string): Option<ResultItem>
    requires k < |groups|
  {
    LastWith(Contribution(env, req, groups, k), id)
  }

  /** Call k speaks under the id and no call after it does. */
  predicate HasLastWord(env: Env, req: TxRequest, groups: seq<Group>, n: nat, k: nat, id: string)
    requires n <= |groups|
  {
    k < n && Word(env, req, groups, k, id).Some? && forall j | k < j < n :: Word(env, req, groups, j, id).None?
  }

  lemma {:induction false} LastWordSaid(env: Env, req: TxRequest, groups: seq<Group>, n: nat, id: string)
    requires n <= |groups|
    ensures var last := LastSaying(env, req, groups, n, id);
            if last.Some? then exists k: nat :: HasLastWord(env, req, groups, n, k, id) && Word(env, req, groups, k, id) == last
            else forall k | 0 <= k < n :: Word(env, req, groups, k, id).None?
  {
    hide LastWith, Contribution;
    if n == 0 {
    } else {
      LastWordSaid(env, req, groups, n - 1, id);
      if Word(env, req, groups, n - 1, id).Some? {
        assert HasLastWord(env, req, groups, n, n - 1, id);
      } else if LastSaying(env, req, groups, n - 1, id).Some? {
        var k: nat :| HasLastWord(env, req, groups, n - 1, k, id) &&
                      Word(env, req, groups, k, id) == LastSaying(env, req, groups, n - 1, id);
        assert HasLastWord(env, req, groups, n, k, id);
      }
    }
  }

  /** Item i is what its own call says, or a denial when that says nothing, exactly
      when no other call has the last word under its id with something else. */
  lemma OwnAnswerIff(env: Env, req: TxRequest, groups: seq<Group>, i: nat, own: nat)
    requires i < |req.items| && own < |groups|
    ensures var id := req.items[i].offerId;
            var word := Word(env, req, groups, own, id);
            var answer := if word.Some? then word.value else Unavailable(id);
            Merged(env, req, groups)[i] == answer <==>
            forall k: nat | k != own && HasLastWord(env, req, groups, |groups|, k, id) ::
              Word(env, req, groups, k, id).value == answer
  {
    hide LastWith, Contribution, Merged, LastSaying;
    var id, n := req.items[i].offerId, |groups|;
    MergedByPosition(env, req, groups, i);
    LastWordSaid(env, req, groups, n, id);
    if LastSaying(env, req, groups, n, id).Some? {
      var k: nat :| HasLastWord(env, req, groups, n, k, id) && Word(env, req, groups, k, id) == LastSaying(env, req, groups, n, id);
      forall j: nat | HasLastWord(env, req, groups, n, j, id)
        ensures j == k
      {
      }
    }
  }

  /** The agent hash is that of the first answer that carries one. */
  lemma {:induction false} HashIsFirst(env: Env, req: TxRequest, groups: seq<Group>, n: nat)
    requires n <= |groups|
    ensures HashOf(env, req, groups, n) == "" <==>
            forall k | 0 <= k < n && Reply(env, req, groups, k).Some? :: Reply(env, req, groups, k).value.agentHash == ""
    ensures HashOf(env, req, groups, n) != "" ==>
              exists k | 0 <= k < n ::
                && Reply(env, req, groups, k).Some? && Reply(env, req, groups, k).value.agentHash == HashOf(env, req, groups, n)
                && forall j | 0 <= j < k && Reply(env, req, groups, j).Some? :: Reply(env, req, groups, j).value.agentHash == ""
  {
    hide Reply;
    if n == 0 {
    } else {
      HashIsFirst(env, req, groups, n - 1);
    }
  }

  function TwoItems(id: string): seq<Item> { [Item(id, "a", ""), Item(id + "2", "b", "")] }

  function TwoRequest(id: string): TxRequest { TxRequest("", "", "", TwoItems(id), "") }

  /** A verified agent and two approved exchanges; the first call answers a, the
      second b. */
  function TwoExchanges(a: ResultItem, b: ResultItem): Env {
    Env(Some(("key", "signature")), false, 0, d => Row(Exchange(d, "", "VERIFIED", true, 0)), d => Advertised(d),
        (k, e, r) => Some(Answer([if k == 0 then a else b], "")), r => true)
  }

  lemma TwoGroups(id: string, a: ResultItem, b: ResultItem)
    ensures var env := TwoExchanges(a, b);
            && Resolved(env, TwoItems(id)).Ok? && |Resolved(env, TwoItems(id)).value| == 2
            && Resolved(env, TwoItems(id)).value[0].domain == "a"
  {
    hide Of, AdmitAll;
    var items := TwoItems(id);
    assert items[..1] == [items[0]] && items[..1][..0] == [];
    assert Order(items[..0]) == [] && Order(items[..1]) == ["a"] && Order(items) == ["a", "b"];
    ResolvedIff(TwoExchanges(a, b), items);
  }

  /** Without that, a later exchange's answer replaces another's: the merge
      itself checks nothing. */
  lemma ForeignAnswerWins(id: string, a: ResultItem, b: ResultItem)
    requires a.offerId == id && b.offerId == id
    ensures var env, req := TwoExchanges(a, b), TwoRequest(id);
            && Guarded(env, map[]) && DistinctIds(req.items) && Resolved(env, req.items).Ok?
            && var groups := Resolved(env, req.items).value;
            && |groups| == 2 && groups[0].domain == req.items[0].exchange
            && Reply(env, req, groups, 0) == Some(Answer([a], ""))
            && forall resp | Assembled(env, req, groups, resp) :: |resp.items| == 2 && resp.items[0] == b
  {
    hide Resolved, Merged;
    var env, req := TwoExchanges(a, b), TwoRequest(id);
    TwoGroups(id, a, b);
    var groups := Resolved(env, req.items).value;
    MergedByPosition(env, req, groups, 0);
    assert Contribution(env, req, groups, 1) == [b];
    assert LastWith([b], id) == Some(b);
    assert Reply(env, req, groups, 0) == Some(Answer([a], ""));
    assert |id + "2"| == |id| + 1 && DistinctIds(req.items);
  }

  /** A relay that has seen nothing serves that request: it is relayed, with the
      second exchange's answer in the first exchange's place. */
  method RelayForeignAnswer(id: string, a: ResultItem, b: ResultItem) returns (out: Served)
    requires a.offerId == id && b.offerId == id
    ensures out.Relayed? && |out.response.items| == 2 && out.response.items[0] == b
  {
    hide Resolved, Assembled, Guarded, RunEvents;
    ForeignAnswerWins(id, a, b);
    var relay := new Relay();
    out := relay.ServeBatch(TwoExchanges(a, b), Some(TwoRequest(id)));
  }
}
